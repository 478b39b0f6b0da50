/** The framing of the control connection: a stream of bytes cut into messages, whatever pieces it arrives in. */
module Ctrl {
  import opened Basics
  import opened Bytes
  import Memory

  const HEADER_SIZE: nat := 8
  const RECV_BUF_SIZE: nat := 512

  datatype Message = Message(msgType: nat, payload: seq<byte>)

  /** How the parser leaves its loop: it waits for more, gives up on a message that does not fit into the buffer, or
      hands the dispatcher a payload that reaches beyond the end of the buffer. */
  datatype Status = Waiting | Overflow | Overrun

  /** The payload size in a header: four bytes in network order. */
  function PayloadSize(s: seq<byte>): nat
    requires |s| >= HEADER_SIZE
  {
    var high := (s[0] as int) * 256 + s[1];
    var low := (s[2] as int) * 256 + s[3];
    high * 0x1_0000 + low
  }

  function MessageType(s: seq<byte>): nat
    requires |s| >= HEADER_SIZE
  {
    (s[4] as int) * 256 + s[5]
  }

  /** The header tells the size whose four bytes it begins with, the highest first. */
  lemma SizeIs(s: seq<byte>, n: nat)
    requires |s| >= 8 && n < 0x1_0000_0000
    ensures PayloadSize(s) == n <==>
              && s[0] == n / 0x100_0000 && s[1] == n / 0x1_0000 % 0x100
              && s[2] == n / 0x100 % 0x100 && s[3] == n % 0x100
  {
    var high, low := (s[0] as int) * 256 + s[1], (s[2] as int) * 256 + s[3];
    if PayloadSize(s) == n {
      assert n / 0x1_0000 == high && n / 0x100 == high * 256 + s[2];
    }
  }

  /** The header is of a message that does not fit into the buffer. */
  predicate TooLong(s: seq<byte>) {
    |s| >= HEADER_SIZE && RECV_BUF_SIZE < HEADER_SIZE + PayloadSize(s) < 0x1_0000_0000
  }

  /** The header holds a size so great that the 32 bit sum of it and the header's own size wraps. */
  predicate Wraps(s: seq<byte>) {
    |s| >= HEADER_SIZE && HEADER_SIZE + PayloadSize(s) >= 0x1_0000_0000
  }

  /** A whole message is there. */
  predicate Complete(s: seq<byte>) {
    |s| >= HEADER_SIZE && HEADER_SIZE + PayloadSize(s) <= RECV_BUF_SIZE && |s| >= HEADER_SIZE + PayloadSize(s)
  }

  /** The status that goes with what is left. */
  function StatusOf(rest: seq<byte>): Status {
    if Wraps(rest) then Overrun else if TooLong(rest) then Overflow else Waiting
  }

  function FirstMessage(s: seq<byte>): Message
    requires Complete(s)
  {
    Message(MessageType(s), s[HEADER_SIZE..HEADER_SIZE + PayloadSize(s)])
  }

  function AfterFirst(s: seq<byte>): (r: seq<byte>)
    requires Complete(s)
    ensures |r| < |s|
  {
    s[HEADER_SIZE + PayloadSize(s)..]
  }

  /** The messages of a stream, up to one that is too long or whose size wraps. */
  function Messages(s: seq<byte>): seq<Message>
    decreases |s|
  {
    if Complete(s) then [FirstMessage(s)] + Messages(AfterFirst(s)) else []
  }

  /** What is left of a stream after its messages. */
  function Rest(s: seq<byte>): (r: seq<byte>)
    ensures |r| <= |s| && !Complete(r)
    decreases |s|
  {
    if Complete(s) then Rest(AfterFirst(s)) else s
  }

  /** What has arrived of a stream has the messages it will have in the end, and it does not matter when they were
      taken out. */
  lemma {:induction false} MessagesSplit(a: seq<byte>, b: seq<byte>)
    ensures Messages(a + b) == Messages(a) + Messages(Rest(a) + b)
    ensures Rest(a + b) == Rest(Rest(a) + b)
    decreases |a|
  {
    if Complete(a) {
      assert FirstMessage(a + b) == FirstMessage(a);
      assert AfterFirst(a + b) == AfterFirst(a) + b;
      MessagesSplit(AfterFirst(a), b);
    }
  }

  /** Once a message that is too long has begun, or one whose size wraps, there are no further messages. */
  lemma {:induction false} NothingAfter(a: seq<byte>, b: seq<byte>)
    requires StatusOf(Rest(a)) != Waiting
    ensures Messages(a + b) == Messages(a) && StatusOf(Rest(a + b)) == StatusOf(Rest(a))
  {
    MessagesSplit(a, b);
    assert PayloadSize(Rest(a) + b) == PayloadSize(Rest(a));
  }

  lemma NothingComplete(s: seq<byte>)
    requires !Complete(s)
    ensures Messages(s) == [] && Rest(s) == s
  {
  }

  /** The bytes of a message on the wire: the size of its payload, which fits the buffer, in four bytes and its type in
      two, high bytes first, then two bytes of no meaning, and the payload. */
  ghost predicate Frames(bytes: seq<byte>, m: Message) {
    var n := |m.payload|;
    && n <= 504 && |bytes| == 8 + n && m.msgType < 0x1_0000
    && bytes[0] == 0 && bytes[1] == 0 && bytes[2] == n / 0x100 && bytes[3] == n % 0x100
    && bytes[4] == m.msgType / 0x100 && bytes[5] == m.msgType % 0x100
    && forall i :: 0 <= i < n ==> bytes[8 + i] == m.payload[i]
  }

  function Joined(pieces: seq<seq<byte>>): seq<byte> {
    if pieces == [] then [] else pieces[0] + Joined(pieces[1..])
  }

  /** What follows the messages: the beginning of another one, or the header of one that is too long or whose size
      wraps. */
  ghost predicate Ends(tail: seq<byte>, status: Status) {
    if |tail| < 8 then status == Waiting
    else
      var n := (tail[0] as int) * 0x100_0000 + (tail[1] as int) * 0x1_0000 + (tail[2] as int) * 0x100 + tail[3];
      if n >= 0xffff_fff8 then status == Overrun
      else if n > 504 then status == Overflow
      else status == Waiting && |tail| < 8 + n
  }

  /** A stream is these messages, one after the other, and a tail. */
  ghost predicate Carries(s: seq<byte>, ms: seq<Message>, tail: seq<byte>) {
    exists pieces :: s == Joined(pieces) + tail && FramesAll(pieces, ms)
  }

  ghost predicate FramesAll(pieces: seq<seq<byte>>, ms: seq<Message>) {
    |pieces| == |ms| && forall i :: 0 <= i < |ms| ==> Frames(pieces[i], ms[i])
  }

  /** Messages framed one after the other are parsed back into those messages. */
  lemma {:induction false} ParsedBack(pieces: seq<seq<byte>>, ms: seq<Message>, tail: seq<byte>, status: Status)
    requires FramesAll(pieces, ms) && Ends(tail, status)
    ensures var s := Joined(pieces) + tail; Messages(s) == ms && Rest(s) == tail && StatusOf(Rest(s)) == status
  {
    var s := Joined(pieces) + tail;
    if ms == [] {
      assert s == tail;
      EndsIs(tail, status);
    } else {
      hide Frames, Ends, Complete, StatusOf, FirstMessage, AfterFirst;
      var rest := Joined(pieces[1..]) + tail;
      assert s == pieces[0] + rest;
      ParsedBack(pieces[1..], ms[1..], tail, status);
      FrameTaken(pieces[0], ms[0], rest);
      assert [ms[0]] + ms[1..] == ms;
    }
  }

  lemma EndsIs(tail: seq<byte>, status: Status)
    ensures Ends(tail, status) <==> !Complete(tail) && StatusOf(tail) == status
  {
  }

  lemma FrameTaken(bytes: seq<byte>, m: Message, rest: seq<byte>)
    requires Frames(bytes, m)
    ensures Complete(bytes + rest) && FirstMessage(bytes + rest) == m && AfterFirst(bytes + rest) == rest
  {
    var s := bytes + rest;
    assert PayloadSize(s) == |m.payload| && MessageType(s) == m.msgType;
    assert s[8..8 + |m.payload|] == m.payload;
  }

  /** And every stream is made up of the messages parsed from it. */
  lemma {:induction false} StreamCarries(s: seq<byte>)
    ensures Carries(s, Messages(s), Rest(s)) && Ends(Rest(s), StatusOf(Rest(s)))
    decreases |s|
  {
    hide Frames, Ends, StatusOf;
    EndsIs(Rest(s), StatusOf(Rest(s)));
    if Complete(s) {
      hide Carries;
      StreamCarries(AfterFirst(s));
      FirstFramed(s);
      CarriesMore(s[..HEADER_SIZE + PayloadSize(s)], FirstMessage(s), AfterFirst(s), Messages(AfterFirst(s)), Rest(s));
    } else {
      assert s == Joined([]) + Rest(s) && FramesAll([], Messages(s));
    }
  }

  lemma FirstFramed(s: seq<byte>)
    requires Complete(s)
    ensures Frames(s[..HEADER_SIZE + PayloadSize(s)], FirstMessage(s))
    ensures s == s[..HEADER_SIZE + PayloadSize(s)] + AfterFirst(s)
  {
  }

  lemma CarriesMore(bytes: seq<byte>, m: Message, s: seq<byte>, ms: seq<Message>, tail: seq<byte>)
    requires Frames(bytes, m) && Carries(s, ms, tail)
    ensures Carries(bytes + s, [m] + ms, tail)
  {
    hide Frames;
    var pieces :| s == Joined(pieces) + tail && FramesAll(pieces, ms);
    var all := [bytes] + pieces;
    assert all[1..] == pieces && FramesAll(all, [m] + ms);
    hide FramesAll;
    assert bytes + s == Joined(all) + tail;
  }

  class Ctrl {
    const recvBuf: array<byte>
    var recvBufSize: nat

    /** The messages handed to the dispatcher. */
    var received: seq<Message>

    ghost predicate Valid()
      reads this
    {
      recvBuf.Length == RECV_BUF_SIZE && recvBufSize <= RECV_BUF_SIZE
    }

    ghost function Held(): seq<byte>
      reads this, recvBuf
      requires Valid()
    {
      recvBuf[..recvBufSize]
    }

    /** What arrived together with the answer to the connect request is already in the buffer. */
    constructor (early: seq<byte>)
      requires |early| <= RECV_BUF_SIZE
      ensures Valid() && Held() == early && received == [] && fresh(recvBuf)
    {
      recvBuf := new byte[RECV_BUF_SIZE];
      recvBufSize, received := |early|, [];
      new;
      Memory.Store(recvBuf, 0, early);
      assert recvBuf[..|early|] == early;
    }

    /** Hands all whole messages to the dispatcher and keeps the rest. */
    method Parse() returns (status: Status)
      requires Valid()
      modifies this`recvBufSize, this`received, recvBuf
      ensures Valid() && Held() == Rest(old(Held())) && received == old(received) + Messages(old(Held()))
      ensures status == StatusOf(Held())
      ensures status == Waiting ==> recvBufSize < RECV_BUF_SIZE
    {
      hide Messages, Rest;
      ghost var all, before := Held(), received;
      status := Waiting;
      assert Dispatched(before, all);
      while recvBufSize >= HEADER_SIZE
        invariant status == Waiting && Dispatched(before, all)
        decreases recvBufSize
      {
        var payloadSize := FirstSize();
        var messageSize := (HEADER_SIZE + payloadSize) % 0x1_0000_0000;
        if recvBufSize < messageSize {
          if messageSize > RECV_BUF_SIZE {
            status := Overflow;
          }
          break;
        }
        if HEADER_SIZE + payloadSize > recvBuf.Length {
          status := Overrun;
          break;
        }
        TakeNext(payloadSize, before, all);
      }
      NothingComplete(Held());
    }

    /** Some of the messages there were have been dispatched, the others are still in the buffer. */
    ghost predicate Dispatched(before: seq<Message>, all: seq<byte>)
      reads this, recvBuf
    {
      && Valid() && Rest(Held()) == Rest(all)
      && received + Messages(Held()) == before + Messages(all)
    }

    method TakeNext(payloadSize: nat, ghost before: seq<Message>, ghost all: seq<byte>)
      requires Dispatched(before, all) && Complete(Held()) && payloadSize == PayloadSize(Held())
      modifies this`recvBufSize, this`received, recvBuf
      ensures Dispatched(before, all) && recvBufSize < old(recvBufSize)
    {
      ghost var first, more := FirstMessage(Held()), Messages(AfterFirst(Held()));
      assert received + ([first] + more) == (received + [first]) + more;
      TakeFirst(payloadSize);
    }

    method FirstSize() returns (payloadSize: nat)
      requires Valid() && recvBufSize >= HEADER_SIZE
      ensures payloadSize == PayloadSize(Held())
    {
      payloadSize := PayloadSize(recvBuf[..HEADER_SIZE]);
      assert forall i :: 0 <= i < HEADER_SIZE ==> recvBuf[..HEADER_SIZE][i] == Held()[i];
    }

    /** Hands over the first message and moves the rest to the start of the buffer. */
    method TakeFirst(payloadSize: nat)
      requires Valid() && Complete(Held()) && payloadSize == PayloadSize(Held())
      modifies this`recvBufSize, this`received, recvBuf
      ensures Valid() && recvBufSize < old(recvBufSize)
      ensures Held() == AfterFirst(old(Held())) && received == old(received) + [FirstMessage(old(Held()))]
    {
      ghost var held := Held();
      var header := recvBuf[..HEADER_SIZE];
      assert MessageType(header) == MessageType(held);
      var payload := recvBuf[HEADER_SIZE..HEADER_SIZE + payloadSize];
      assert payload == held[HEADER_SIZE..HEADER_SIZE + payloadSize] by {
        forall i | 0 <= i < payloadSize ensures payload[i] == held[HEADER_SIZE + i] {
          assert payload[i] == recvBuf[HEADER_SIZE + i];
        }
      }
      received := received + [Message(MessageType(header), payload)];
      recvBufSize := recvBufSize - (HEADER_SIZE + payloadSize);
      if recvBufSize > 0 {
        Memory.Move(recvBuf, 0, HEADER_SIZE + payloadSize, recvBufSize);
      }
      assert Held() == held[HEADER_SIZE + payloadSize..];
    }

    /** Receives some bytes behind those that are there. */
    method Recv(bytes: seq<byte>)
      requires Valid() && recvBufSize + |bytes| <= RECV_BUF_SIZE
      modifies this`recvBufSize, recvBuf
      ensures Valid() && Held() == old(Held()) + bytes
    {
      Memory.Store(recvBuf, recvBufSize, bytes);
      recvBufSize := recvBufSize + |bytes|;
      assert Held() == old(Held()) + bytes;
    }
  }

  /** The headers that lead to the overrun: the wrapped sum is less than 8 and so less than what has arrived. */
  lemma OverrunHeaders(s: seq<byte>)
    requires |s| >= HEADER_SIZE
    ensures Wraps(s) <==> s[0] == s[1] == s[2] == 255 && s[3] >= 248
    ensures Wraps(s) ==> (HEADER_SIZE + PayloadSize(s)) % 0x1_0000_0000 < HEADER_SIZE
    ensures Wraps(s) ==> Messages(s) == [] && StatusOf(Rest(s)) == Overrun
  {
  }

  /**
   * However a stream is cut into pieces on its way, the messages dispatched are those of the stream; overflow is
   * reported exactly when it comes to a message that is too long for the buffer, and a payload beyond the buffer's end
   * is dispatched exactly when it comes to a size that wraps; otherwise all is received, as there is always room for
   * more, and the buffer holds what does not make up a message yet. `piece` says how much each receive would take.
   */
  method Serve(early: seq<byte>, stream: seq<byte>, piece: nat -> nat)
    returns (messages: seq<Message>, rest: seq<byte>, status: Status)
    requires |early| <= RECV_BUF_SIZE
    ensures messages == Messages(early + stream)
    ensures status == StatusOf(Rest(early + stream))
    ensures status == Waiting ==> rest == Rest(early + stream)
    ensures exists tail ::
              Carries(early + stream, messages, tail) && Ends(tail, status) && (status == Waiting ==> rest == tail)
  {
    hide Messages, Rest, Complete, StatusOf, PayloadSize, Carries, Ends;
    StreamCarries(early + stream);
    var ctrl := new Ctrl(early);
    MessagesSplit(early, stream);
    status := ctrl.Parse();
    var at, n := 0, 0;
    assert early + stream[..0] == early;
    while status == Waiting && at < |stream|
      invariant at <= |stream| && fresh(ctrl) && fresh(ctrl.recvBuf)
      invariant Stands(ctrl, early + stream[..at], status)
      decreases |stream| - at
    {
      var size := Min(Max(piece(n), 1), Min(RECV_BUF_SIZE - ctrl.recvBufSize, |stream| - at));
      Piece(early, stream, at, size);
      status := TakeIn(ctrl, early + stream[..at], stream[at..at + size]);
      at, n := at + size, n + 1;
    }
    Ended(early, stream, at, status);
    messages, rest := ctrl.received, ctrl.recvBuf[..ctrl.recvBufSize];
  }

  /** All messages that have arrived whole have been dispatched, and there is room for more as long as it waits. */
  ghost predicate Stands(ctrl: Ctrl, arrived: seq<byte>, status: Status)
    reads ctrl, ctrl.recvBuf
  {
    && ctrl.Valid() && ctrl.Held() == Rest(arrived) && ctrl.received == Messages(arrived)
    && status == StatusOf(Rest(arrived)) && (status == Waiting ==> ctrl.recvBufSize < RECV_BUF_SIZE)
  }

  method TakeIn(ctrl: Ctrl, ghost arrived: seq<byte>, bytes: seq<byte>) returns (status: Status)
    requires Stands(ctrl, arrived, Waiting) && ctrl.recvBufSize + |bytes| <= RECV_BUF_SIZE
    modifies ctrl`recvBufSize, ctrl`received, ctrl.recvBuf
    ensures Stands(ctrl, arrived + bytes, status)
  {
    MessagesSplit(arrived, bytes);
    ctrl.Recv(bytes);
    status := ctrl.Parse();
  }

  lemma Ended(early: seq<byte>, stream: seq<byte>, at: nat, status: Status)
    requires at <= |stream| && status == StatusOf(Rest(early + stream[..at]))
    requires status == Waiting ==> at == |stream|
    ensures Messages(early + stream[..at]) == Messages(early + stream)
    ensures status == StatusOf(Rest(early + stream))
    ensures status == Waiting ==> early + stream[..at] == early + stream
  {
    var arrived := early + stream[..at];
    assert arrived + stream[at..] == early + stream;
    if status != Waiting { NothingAfter(arrived, stream[at..]); } else { assert stream[..at] == stream; }
  }

  lemma Piece(early: seq<byte>, stream: seq<byte>, at: nat, size: nat)
    requires at + size <= |stream|
    ensures early + stream[..at + size] == (early + stream[..at]) + stream[at..at + size]
  {
  }
}
