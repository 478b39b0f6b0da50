/** Encrypted packets between two peers: the sender spends key stream positions and sends only their low
    32 bits; the receiver recovers the position and decrypts. */
module TakionCrypt {
  import opened Basics
  import opened Bytes
  import opened Counter
  import KS = KeyStream
  import GK = GKCrypt
  import KeyState
  import SeqNum

  const TWO32: nat := 0x1_0000_0000

  /** What a packet of `size` bytes advances the position by. */
  function Spent(size: nat): nat {
    size + size % BLOCK_SIZE
  }

  /** ... in arithmetic up to `sizeMax`. */
  function SpentUpTo(size: nat, sizeMax: nat): nat {
    Spent(size) % (sizeMax + 1)
  }

  /** A packet is given at least as many positions as it has bytes iff the sum does not wrap. */
  lemma SpentCovers(size: nat, sizeMax: nat)
    requires size <= sizeMax
    ensures sizeMax >= BLOCK_SIZE ==> (SpentUpTo(size, sizeMax) >= size <==> Spent(size) <= sizeMax)
    ensures Spent(size) <= sizeMax ==> SpentUpTo(size, sizeMax) == Spent(size)
  {
    if Spent(size) <= sizeMax {
      SeqNum.DivModUnique(sizeMax + 1, 0, Spent(size));
    } else if sizeMax >= BLOCK_SIZE {
      SeqNum.DivModUnique(sizeMax + 1, 1, Spent(size) - (sizeMax + 1));
    }
  }

  /** It wraps for the eight greatest sizes there are (`sizeMax` being one less than a multiple of the block size). */
  lemma SpentWraps(size: nat, sizeMax: nat)
    requires size <= sizeMax && (sizeMax + 1) % BLOCK_SIZE == 0
    ensures Spent(size) > sizeMax <==> sizeMax - size < BLOCK_SIZE / 2
  {
  }

  datatype Packet = Packet(keyPosLow: nat, data: seq<byte>)

  class Sender {
    const gkcrypt: GK.GKCrypt
    /** SIZE_MAX */
    const sizeMax: nat
    var keyPosLocal: nat

    ghost predicate Valid()
      reads this, gkcrypt, gkcrypt.keyBuf
    {
      gkcrypt.Valid() && keyPosLocal <= sizeMax
    }

    constructor (gkcrypt: GK.GKCrypt, sizeMax: nat)
      requires gkcrypt.Valid()
      ensures Valid() && this.gkcrypt == gkcrypt && this.sizeMax == sizeMax && keyPosLocal == 0
    {
      this.gkcrypt, this.sizeMax, keyPosLocal := gkcrypt, sizeMax, 0;
    }

    /** Reserves the positions of a packet; fails if they would overflow. Before there is a cipher it reserves none
        and answers 0. */
    method AdvanceKeyPos(dataSize: nat, cipherSet: bool) returns (keyPos: Option<nat>)
      requires keyPosLocal <= sizeMax && dataSize <= sizeMax
      modifies this
      ensures keyPosLocal <= sizeMax
      ensures !cipherSet ==> keyPos == Some(0) && keyPosLocal == old(keyPosLocal)
      ensures cipherSet && old(keyPosLocal) + SpentUpTo(dataSize, sizeMax) <= sizeMax ==>
                && keyPos == Some(old(keyPosLocal))
                && keyPosLocal == old(keyPosLocal) + SpentUpTo(dataSize, sizeMax)
      ensures cipherSet && old(keyPosLocal) + SpentUpTo(dataSize, sizeMax) > sizeMax ==>
                keyPos == None && keyPosLocal == old(keyPosLocal)
    {
      var size := (dataSize + dataSize % BLOCK_SIZE) % (sizeMax + 1);
      if !cipherSet { return Some(0); }
      if sizeMax - keyPosLocal < size {
        return None;
      }
      keyPos := Some(keyPosLocal);
      keyPosLocal := keyPosLocal + size;
    }

    /** Sends an encrypted payload (a feedback or microphone packet). */
    method SendEncrypted(payload: seq<byte>) returns (r: Option<Packet>)
      requires Valid()
      requires keyPosLocal + |payload| + 2 * BLOCK_SIZE + gkcrypt.keyBuf.Length + 2 * gkcrypt.chunkSize < TWO64
      requires |payload| + BLOCK_SIZE <= sizeMax
      modifies this, gkcrypt`lastKeyPos
      ensures Valid()
      ensures r.Some? ==> gkcrypt.cipher.Masked(old(keyPosLocal) + BLOCK_SIZE, payload, r.value.data)
      ensures old(keyPosLocal) + SpentUpTo(|payload| + BLOCK_SIZE, sizeMax) > sizeMax ==>
                r == None && keyPosLocal == old(keyPosLocal)
      ensures old(keyPosLocal) + SpentUpTo(|payload| + BLOCK_SIZE, sizeMax) <= sizeMax ==>
                && keyPosLocal == old(keyPosLocal) + SpentUpTo(|payload| + BLOCK_SIZE, sizeMax)
                && r == Some(Packet(old(keyPosLocal) % TWO32,
                                    gkcrypt.cipher.Crypt(old(keyPosLocal) + BLOCK_SIZE, payload)))
    {
      hide SpentUpTo, KS.Cipher.Masked, KS.Cipher.Crypt, GK.GKCrypt.Valid;
      var keyPos := AdvanceKeyPos(|payload| + BLOCK_SIZE, true);
      if keyPos.None? { return None; }
      var buf := new byte[|payload|](i requires 0 <= i < |payload| => payload[i]);
      assert buf[..] == payload;
      gkcrypt.Decrypt(keyPos.value + BLOCK_SIZE, buf);
      r := Some(Packet(keyPos.value % TWO32, buf[..]));
    }
  }

  class Receiver {
    const gkcrypt: GK.GKCrypt
    const keyState: KeyState.KeyState

    ghost predicate Valid()
      reads this, gkcrypt, gkcrypt.keyBuf, keyState
    {
      gkcrypt.Valid() && keyState.prev < TWO64
    }

    constructor (gkcrypt: GK.GKCrypt)
      requires gkcrypt.Valid()
      ensures Valid() && this.gkcrypt == gkcrypt && fresh(keyState) && keyState.prev == 0
    {
      this.gkcrypt := gkcrypt;
      keyState := new KeyState.KeyState();
    }

    /** Takes in a packet: its position is recovered, its MAC checked with the verdict `macOk`, and only then is the
        position committed. The parser recovers it once more. A packet with a wrong MAC changes nothing. */
    method Receive(p: Packet, macOk: bool) returns (payload: Option<seq<byte>>)
      requires Valid() && p.keyPosLow < TWO32
      requires macOk ==>
                 KeyState.Reconstruct(keyState.prev, p.keyPosLow) + |p.data|
                 + 2 * BLOCK_SIZE + gkcrypt.keyBuf.Length + 2 * gkcrypt.chunkSize < TWO64
      modifies keyState, gkcrypt`lastKeyPos
      ensures Valid()
      ensures !macOk ==> payload == None && keyState.prev == old(keyState.prev)
      ensures macOk ==>
                && keyState.prev == KeyState.Reconstruct(old(keyState.prev), p.keyPosLow)
                && payload == Some(gkcrypt.cipher.Crypt(keyState.prev + BLOCK_SIZE, p.data))
    {
      hide KeyState.Reconstruct;
      KeyState.ReconstructAgain(keyState.prev, p.keyPosLow);
      var keyPos := keyState.RequestPos(p.keyPosLow, false);
      if !macOk { return None; }
      keyState.Commit(keyPos);
      keyPos := keyState.RequestPos(p.keyPosLow, true);
      var buf := new byte[|p.data|](i requires 0 <= i < |p.data| => p.data[i]);
      assert buf[..] == p.data;
      gkcrypt.Decrypt(keyPos + BLOCK_SIZE, buf);
      payload := Some(buf[..]);
    }

    /** Takes in a packet that is not encrypted: if its MAC is right, its position is committed, by the check and by the
        parser. */
    method TakePlain(keyPosLow: nat, macOk: bool)
      requires Valid() && keyPosLow < TWO32
      modifies keyState
      ensures Valid()
      ensures keyState.prev == if macOk then KeyState.Reconstruct(old(keyState.prev), keyPosLow) else old(keyState.prev)
    {
      hide KeyState.Reconstruct;
      KeyState.ReconstructAgain(keyState.prev, keyPosLow);
      var keyPos := keyState.RequestPos(keyPosLow, false);
      if macOk {
        keyState.Commit(keyPos);
        keyPos := keyState.RequestPos(keyPosLow, true);
      }
    }
  }

  /** What happens in a session: a payload is sent encrypted, some other packet is sent and spends positions, the
      network delivers what was sent by some earlier action (any, any number of times) or anything else, which fails the
      check of its MAC, or a key stream cache makes a step. */
  datatype Action =
    | Send(payload: seq<byte>)
    | Spend(size: nat)
    | Deliver(index: nat)
    | Stray(packet: Packet)
    | SenderCache(step: GK.Action)
    | ReceiverCache(step: GK.Action)

  /** What an action sends: nothing, a payload to be encrypted at a position, or another packet with its position. */
  datatype Sent = Nothing | Secret(pos: nat, payload: seq<byte>) | Plain(pos: nat)

  /** The session as an outside observer sees it. */
  datatype Session = Session(
    sent: seq<Sent>,    // by each action so far
    next: nat,          // the sender's position
    last: nat)          // the position last delivered

  function Step(s: Session, a: Action): Session {
    match a
    case Send(payload) => s.(sent := s.sent + [Secret(s.next, payload)], next := s.next + Spent(|payload| + BLOCK_SIZE))
    case Spend(size) => s.(sent := s.sent + [Plain(s.next)], next := s.next + Spent(size))
    case Deliver(i) =>
      s.(sent := s.sent + [Nothing], last := if i < |s.sent| && s.sent[i] != Nothing then s.sent[i].pos else s.last)
    case Stray(_) => s.(sent := s.sent + [Nothing])
    case SenderCache(_) => s.(sent := s.sent + [Nothing])
    case ReceiverCache(_) => s.(sent := s.sent + [Nothing])
  }

  function Observe(script: seq<Action>): Session {
    if script == [] then Session([], 0, 0)
    else Step(Observe(script[..|script| - 1]), script[|script| - 1])
  }

  /** The action is possible: the position does not overflow, a packet delivered is less than 2^31 away from
      the one before, and the caches are only asked what GKCrypt allows. */
  predicate Possible(s: Session, a: Action, chunks: nat, sizeMax: nat) {
    var margin := 2 * BLOCK_SIZE + (chunks + 2) * GK.CHUNK;
    match a
    case Send(payload) =>
      s.next + Spent(|payload| + BLOCK_SIZE) <= sizeMax && s.next + |payload| + margin < TWO64
    case Spend(size) => s.next + Spent(size) <= sizeMax
    case Deliver(i) =>
      && i < |s.sent| && s.sent[i] != Nothing
      && s.sent[i].pos < TWO64 && KeyState.Within31(s.last, s.sent[i].pos)
    case Stray(packet) => packet.keyPosLow < TWO32
    case SenderCache(step) => GK.Proper(step, chunks)
    case ReceiverCache(step) => GK.Proper(step, chunks)
  }

  predicate Admissible(script: seq<Action>, chunks: nat, sizeMax: nat) {
    forall k :: 0 <= k < |script| ==> Possible(Observe(script[..k]), script[k], chunks, sizeMax)
  }

  /** What action `k` has sent, and at which position. */
  lemma {:induction false} SentIs(script: seq<Action>, k: nat)
    requires k < |script|
    ensures |Observe(script).sent| == |script|
    ensures var t, next := Observe(script).sent[k], Observe(script[..k]).next;
            && (script[k].Send? ==> t == Secret(next, script[k].payload))
            && (script[k].Spend? ==> t == Plain(next))
            && (!script[k].Send? && !script[k].Spend? ==> t == Nothing)
  {
    var n := |script| - 1;
    SentCount(script[..n]);
    if k < n {
      SentIs(script[..n], k);
      assert script[..n][..k] == script[..k];
    }
  }

  lemma {:induction false} SentCount(script: seq<Action>)
    ensures |Observe(script).sent| == |script|
  {
    if script != [] { SentCount(script[..|script| - 1]); }
  }

  const TWO36: nat := 0x10_0000_0000

  /** Two payloads share a key stream byte: some byte of each is combined with the same byte of the same encrypted
      counter. */
  ghost predicate ShareByte(c: KS.Cipher, first: (nat, seq<byte>), second: (nat, seq<byte>)) {
    exists x, y :: InPayload(first, x) && InPayload(second, y) && c.Source(x) == c.Source(y)
  }

  function PayloadOf(t: Sent): (nat, seq<byte>)
    requires t.Secret?
  {
    (t.pos, t.payload)
  }

  predicate InPayload(payload: (nat, seq<byte>), x: int) {
    payload.0 + BLOCK_SIZE <= x < payload.0 + BLOCK_SIZE + |payload.1|
  }

  /** The stretches of positions meet modulo 2^36. */
  predicate Meet(first: (nat, seq<byte>), second: (nat, seq<byte>)) {
    var d := (second.0 - first.0) % TWO36;
    |first.1| > 0 && |second.1| > 0 && (d < |first.1| || d + |second.1| > TWO36)
  }

  /** Exactly when two payloads share a key stream byte. */
  lemma SharedIff(c: KS.Cipher, first: (nat, seq<byte>), second: (nat, seq<byte>))
    ensures ShareByte(c, first, second) <==> Meet(first, second)
  {
    hide KS.Cipher.Source;
    var p, q := first.0 + BLOCK_SIZE, second.0 + BLOCK_SIZE;
    var d, k := (q - p) % TWO36, (q - p) / TWO36;
    assert q - p == TWO36 * k + d;
    forall x, y | InPayload(first, x) && InPayload(second, y) && c.Source(x) == c.Source(y)
      ensures Meet(first, second)
    {
      c.SharedByte(x, y);
      MeetsAt(x, y, d, x - p, y - q, k);
    }
    if Meet(first, second) {
      if d < |first.1| {
        assert q == p + d + TWO36 * k;
        SameResidue(p + d, k);
        c.SharedByte(p + d, q);
        assert InPayload(first, p + d) && InPayload(second, q);
      } else {
        assert q + (TWO36 - d) == p + TWO36 * (k + 1);
        SameResidue(p, k + 1);
        c.SharedByte(p, q + (TWO36 - d));
        assert InPayload(first, p) && InPayload(second, q + (TWO36 - d));
      }
    }
  }

  lemma SameResidue(x: int, k: int)
    ensures (x + TWO36 * k) % TWO36 == x % TWO36
  {
    assert x + TWO36 * k == TWO36 * (x / TWO36 + k) + x % TWO36;
    SeqNum.DivModUnique(TWO36, x / TWO36 + k, x % TWO36);
  }

  lemma MeetsAt(x: int, y: int, d: int, s: nat, t: nat, k: int)
    requires x % TWO36 == y % TWO36 && y - x == TWO36 * k + d + t - s && 0 <= d
    ensures d <= s || d + t >= TWO36
  {
    var n := y / TWO36 - x / TWO36;
    assert y - x == TWO36 * n by {
      assert y == TWO36 * (y / TWO36) + y % TWO36 && x == TWO36 * (x / TWO36) + x % TWO36;
    }
    assert d + t - s == TWO36 * (n - k);
    SeqNum.MulMagnitude(TWO36, n - k);
  }

  /** No two payloads of a session share a key stream byte as long as it spends no more than 2^36 positions. */
  lemma NoSharedByte(c: KS.Cipher, script: seq<Action>, i: nat, j: nat)
    requires i < j < |Observe(script).sent| && Observe(script).next <= TWO36
    requires Observe(script).sent[i].Secret? && Observe(script).sent[j].Secret?
    ensures !ShareByte(c, PayloadOf(Observe(script).sent[i]), PayloadOf(Observe(script).sent[j]))
  {
    hide Observe, ShareByte;
    var first, second := PayloadOf(Observe(script).sent[i]), PayloadOf(Observe(script).sent[j]);
    PositionsDisjoint(script, i, j);
    PositionsBelowNext(script, j);
    SharedIff(c, first, second);
    SeqNum.DivModUnique(TWO36, 0, second.0 - first.0);
  }

  /** A session that spends more: its two payloads are combined with the same key stream byte. */
  lemma SharedAfterWrap(c: KS.Cipher)
    ensures var script := [Send([1]), Spend(TWO36 - 25), Send([2])];
            && Admissible(script, 2, TWO64 - 1)
            && Observe(script).sent == [Secret(0, [1]), Plain(18), Secret(TWO36, [2])]
            && ShareByte(c, PayloadOf(Observe(script).sent[0]), PayloadOf(Observe(script).sent[2]))
  {
    var script: seq<Action> := [Send([1]), Spend(TWO36 - 25), Send([2])];
    assert script[..0] == [] && script[..1][..0] == [] && script[..2][..1] == script[..1] && script[..3] == script;
    assert Observe(script[..1]) == Session([Secret(0, [1])], 18, 0);
    assert Observe(script[..2]) == Session([Secret(0, [1]), Plain(18)], TWO36, 0);
    SharedIff(c, (0, [1]), (TWO36, [2]));
  }

  /** The stretches of positions of two payloads of a session are disjoint. */
  lemma {:induction false} PositionsDisjoint(script: seq<Action>, i: nat, j: nat)
    requires i < j < |Observe(script).sent| && Observe(script).sent[i].Secret? && Observe(script).sent[j].Secret?
    ensures var (p, a), (q, b) := PayloadOf(Observe(script).sent[i]), PayloadOf(Observe(script).sent[j]);
            p + BLOCK_SIZE + |a| <= q + BLOCK_SIZE
  {
    var rest := script[..|script| - 1];
    if j < |Observe(rest).sent| {
      PositionsDisjoint(rest, i, j);
    } else {
      PositionsBelowNext(rest, i);
    }
  }

  lemma {:induction false} PositionsBelowNext(script: seq<Action>, i: nat)
    requires i < |Observe(script).sent| && Observe(script).sent[i].Secret?
    ensures var (p, a) := PayloadOf(Observe(script).sent[i]); p + BLOCK_SIZE + |a| <= Observe(script).next
  {
    var rest := script[..|script| - 1];
    if i < |Observe(rest).sent| {
      PositionsBelowNext(rest, i);
    }
  }

  /** What an action puts on the wire. */
  datatype Wire = Silence | Sealed(packet: Packet) | Open(keyPosLow: nat)

  /** The packets on the wire are the payloads sent, encrypted each at its own position, and others with the low halves
      of theirs. */
  ghost predicate OnWire(c: KS.Cipher, wire: seq<Wire>, sent: seq<Sent>, margin: nat) {
    |wire| == |sent| && forall i :: 0 <= i < |sent| ==> Carries(c, wire[i], sent[i], margin)
  }

  ghost predicate Carries(c: KS.Cipher, w: Wire, t: Sent, margin: nat) {
    match t
    case Nothing => w == Silence
    case Secret(pos, payload) =>
      && pos + |payload| + margin < TWO64
      && w == Sealed(Packet(pos % TWO32, c.Crypt(pos + BLOCK_SIZE, payload)))
    case Plain(pos) => w == Open(pos % TWO32)
  }

  ghost predicate Linked(sender: Sender, receiver: Receiver, c: KS.Cipher, chunks: nat)
    reads sender, sender.gkcrypt, sender.gkcrypt.keyBuf
    reads receiver, receiver.gkcrypt, receiver.gkcrypt.keyBuf, receiver.keyState
  {
    && sender.Valid() && receiver.Valid()
    && sender.gkcrypt != receiver.gkcrypt && sender.gkcrypt.keyBuf != receiver.gkcrypt.keyBuf
    && sender.gkcrypt.cipher == c && receiver.gkcrypt.cipher == c
    && sender.gkcrypt.chunkSize == receiver.gkcrypt.chunkSize == GK.CHUNK
    && sender.gkcrypt.keyBuf.Length == receiver.gkcrypt.keyBuf.Length == chunks * GK.CHUNK
  }

  /** One action; what it puts on the wire and the payload received, if any. */
  method Act(sender: Sender, receiver: Receiver, a: Action, wire: seq<Wire>, ghost s: Session, ghost c: KS.Cipher,
             ghost chunks: nat)
    returns (w: Wire, got: Option<seq<byte>>)
    requires Linked(sender, receiver, c, chunks) && chunks > 0
    requires Possible(s, a, chunks, sender.sizeMax)
    requires sender.keyPosLocal == s.next && receiver.keyState.prev == s.last
    requires OnWire(c, wire, s.sent, 2 * BLOCK_SIZE + (chunks + 2) * GK.CHUNK)
    modifies sender, sender.gkcrypt, sender.gkcrypt.keyBuf, receiver.keyState, receiver.gkcrypt, receiver.gkcrypt.keyBuf
    ensures Linked(sender, receiver, c, chunks)
    ensures sender.keyPosLocal == Step(s, a).next && receiver.keyState.prev == Step(s, a).last
    ensures OnWire(c, wire + [w], Step(s, a).sent, 2 * BLOCK_SIZE + (chunks + 2) * GK.CHUNK)
    ensures got == if a.Deliver? && s.sent[a.index].Secret? then Some(s.sent[a.index].payload) else None
  {
    w, got := Silence, None;
    match a
    case Send(payload) =>
      w := ActSend(sender, payload, s, c, chunks);
    case Spend(size) =>
      SpentCovers(size, sender.sizeMax);
      var keyPos := sender.AdvanceKeyPos(size, true);
      w := Open(keyPos.value % TWO32);
    case Deliver(i) =>
      got := ActDeliver(receiver, wire[i], s, i, c, chunks);
    case Stray(packet) =>
      var rejected := receiver.Receive(packet, false);
    case SenderCache(step) =>
      var out := GK.Act(sender.gkcrypt, step);
    case ReceiverCache(step) =>
      var out := GK.Act(receiver.gkcrypt, step);
  }

  method ActSend(sender: Sender, payload: seq<byte>, ghost s: Session, ghost c: KS.Cipher, ghost chunks: nat)
    returns (w: Wire)
    requires sender.Valid() && sender.gkcrypt.cipher == c && sender.gkcrypt.chunkSize == GK.CHUNK
    requires sender.gkcrypt.keyBuf.Length == chunks * GK.CHUNK && chunks > 0
    requires Possible(s, Send(payload), chunks, sender.sizeMax) && sender.keyPosLocal == s.next
    modifies sender, sender.gkcrypt`lastKeyPos
    ensures sender.Valid() && sender.keyPosLocal == Step(s, Send(payload)).next
    ensures Carries(c, w, Secret(s.next, payload), 2 * BLOCK_SIZE + (chunks + 2) * GK.CHUNK)
  {
    SpentCovers(|payload| + BLOCK_SIZE, sender.sizeMax);
    var p := sender.SendEncrypted(payload);
    w := Sealed(p.value);
  }

  method ActDeliver(receiver: Receiver, w: Wire, ghost s: Session, ghost i: nat, ghost c: KS.Cipher,
                    ghost chunks: nat)
    returns (got: Option<seq<byte>>)
    requires receiver.Valid() && receiver.gkcrypt.cipher == c && receiver.gkcrypt.chunkSize == GK.CHUNK
    requires receiver.gkcrypt.keyBuf.Length == chunks * GK.CHUNK && chunks > 0
    requires i < |s.sent| && s.sent[i] != Nothing && s.sent[i].pos < TWO64
    requires KeyState.Within31(receiver.keyState.prev, s.sent[i].pos)
    requires Carries(c, w, s.sent[i], 2 * BLOCK_SIZE + (chunks + 2) * GK.CHUNK)
    modifies receiver.keyState, receiver.gkcrypt`lastKeyPos
    ensures receiver.Valid() && receiver.keyState.prev == s.sent[i].pos
    ensures got == if s.sent[i].Secret? then Some(s.sent[i].payload) else None
  {
    KeyState.ReconstructExact(receiver.keyState.prev, s.sent[i].pos);
    match w
    case Silence => got := None;
    case Open(low) =>
      receiver.TakePlain(low, true);
      got := None;
    case Sealed(packet) =>
      c.CryptTwice(s.sent[i].pos + BLOCK_SIZE, s.sent[i].payload);
      got := receiver.Receive(packet, true);
  }

  /**
   * In every session in which packets, encrypted or not, are delivered less than 2^31 positions apart, with any loss,
   * duplication and reordering, whatever else arrives with a wrong MAC and whatever the two caches do meanwhile: each
   * payload goes over the wire with the low half of the position that the packets before it have left, each bit
   * combined with that of the key stream one block past that position; and whenever it is delivered it is received.
   */
  method RunSession(c: KS.Cipher, chunks: nat, sizeMax: nat, script: seq<Action>)
    returns (wire: seq<Wire>, received: seq<Option<seq<byte>>>, positions: seq<nat>)
    requires chunks > 0 && (chunks + 2) * GK.CHUNK < TWO64
    requires Admissible(script, chunks, sizeMax)
    ensures |wire| == |received| == |positions| == |script|
    ensures |script| > 0 ==> positions[0] == 0
    ensures forall k :: 0 <= k < |script| - 1 ==> positions[k + 1] == positions[k] + Cost(script[k])
    ensures forall k :: 0 <= k < |script| ==> OverTheWire(c, script[k], wire[k], positions[k])
    ensures forall k :: 0 <= k < |script| ==> Receives(script, k, received[k])
  {
    wire, received, positions := RunActions(c, chunks, sizeMax, script);
    hide Observe, OnWire;
    forall j | 0 <= j < |script| ensures OverTheWire(c, script[j], wire[j], positions[j]) {
      SentIs(script, j);
      CarriedIs(c, wire, Observe(script).sent, 2 * BLOCK_SIZE + (chunks + 2) * GK.CHUNK, j, script[j]);
    }
    forall j | 0 <= j < |script| - 1 ensures positions[j + 1] == positions[j] + Cost(script[j]) {
      NextIs(script, j);
    }
    if |script| > 0 { NextAtFirst(script); }
  }

  method RunActions(c: KS.Cipher, chunks: nat, sizeMax: nat, script: seq<Action>)
    returns (wire: seq<Wire>, received: seq<Option<seq<byte>>>, positions: seq<nat>)
    requires chunks > 0 && (chunks + 2) * GK.CHUNK < TWO64
    requires Admissible(script, chunks, sizeMax)
    ensures |wire| == |received| == |positions| == |script|
    ensures forall k :: 0 <= k < |script| ==> positions[k] == Observe(script[..k]).next
    ensures OnWire(c, wire, Observe(script).sent, 2 * BLOCK_SIZE + (chunks + 2) * GK.CHUNK)
    ensures forall k :: 0 <= k < |script| ==> Receives(script, k, received[k])
  {
    hide OnWire, Possible, Linked, Receives, Observe, Step, GK.GKCrypt.Valid;
    var local := new GK.GKCrypt(c, chunks);
    var remote := new GK.GKCrypt(c, chunks);
    var sender := new Sender(local, sizeMax);
    var receiver := new Receiver(remote);
    wire, received, positions := [], [], [];
    var k := 0;
    NothingYet(sender, receiver, c, chunks);
    assert script[..0] == [];
    while k < |script|
      invariant k <= |script| && Linked(sender, receiver, c, chunks) && sender.sizeMax == sizeMax
      invariant fresh(sender) && fresh(receiver.keyState) && fresh(local) && fresh(local.keyBuf)
      invariant fresh(remote) && fresh(remote.keyBuf) && sender.gkcrypt == local && receiver.gkcrypt == remote
      invariant sender.keyPosLocal == Observe(script[..k]).next
      invariant receiver.keyState.prev == Observe(script[..k]).last
      invariant OnWire(c, wire, Observe(script[..k]).sent, 2 * BLOCK_SIZE + (chunks + 2) * GK.CHUNK)
      invariant |wire| == |received| == |positions| == k
      invariant forall j :: 0 <= j < k ==> positions[j] == Observe(script[..j]).next
      invariant forall j :: 0 <= j < k ==> Receives(script, j, received[j])
    {
      ObserveNext(script, k);
      positions := positions + [sender.keyPosLocal];
      var w, got := Act(sender, receiver, script[k], wire, Observe(script[..k]), c, chunks);
      ReceivedIs(script, k, got, chunks, sizeMax);
      wire, received := wire + [w], received + [got];
      k := k + 1;
    }
    assert script[..k] == script;
  }

  lemma ObserveNext(script: seq<Action>, k: nat)
    requires k < |script|
    ensures Observe(script[..k + 1]) == Step(Observe(script[..k]), script[k])
  {
    assert script[..k + 1][..k] == script[..k];
  }

  lemma NextIs(script: seq<Action>, k: nat)
    requires k < |script|
    ensures Observe(script[..k + 1]).next == Observe(script[..k]).next + Cost(script[k])
  {
    ObserveNext(script, k);
  }

  lemma NextAtFirst(script: seq<Action>)
    ensures Observe(script[..0]).next == 0
  {
    assert script[..0] == [];
  }

  /** The positions that an action spends. */
  function Cost(a: Action): nat {
    if a.Send? then Spent(|a.payload| + BLOCK_SIZE) else if a.Spend? then Spent(a.size) else 0
  }

  /** What an action puts on the wire when the sender's position is `pos`. */
  ghost predicate OverTheWire(c: KS.Cipher, a: Action, w: Wire, pos: nat) {
    if a.Send? then
      w.Sealed? && w.packet.keyPosLow == pos % TWO32 && c.Masked(pos + BLOCK_SIZE, a.payload, w.packet.data)
    else if a.Spend? then w == Open(pos % TWO32)
    else w == Silence
  }

  /** What is received by action `k`: the payload sent by the action whose packet it delivers, if that sent one. */
  predicate Receives(script: seq<Action>, k: nat, got: Option<seq<byte>>)
    requires k < |script|
  {
    if script[k].Deliver? then
      && script[k].index < k
      && got == if script[script[k].index].Send? then Some(script[script[k].index].payload) else None
    else got == None
  }

  lemma NothingYet(sender: Sender, receiver: Receiver, c: KS.Cipher, chunks: nat)
    requires sender.Valid() && receiver.Valid()
    requires sender.gkcrypt != receiver.gkcrypt && sender.gkcrypt.keyBuf != receiver.gkcrypt.keyBuf
    requires sender.gkcrypt.cipher == c && receiver.gkcrypt.cipher == c
    requires sender.gkcrypt.chunkSize == receiver.gkcrypt.chunkSize == GK.CHUNK
    requires sender.gkcrypt.keyBuf.Length == receiver.gkcrypt.keyBuf.Length == chunks * GK.CHUNK
    ensures Linked(sender, receiver, c, chunks) && Observe([]) == Session([], 0, 0)
    ensures forall margin :: OnWire(c, [], [], margin)
  {
  }

  lemma ReceivedIs(script: seq<Action>, k: nat, got: Option<seq<byte>>, chunks: nat, sizeMax: nat)
    requires k < |script| && Possible(Observe(script[..k]), script[k], chunks, sizeMax)
    requires var s, a := Observe(script[..k]), script[k];
             got == if a.Deliver? && s.sent[a.index].Secret? then Some(s.sent[a.index].payload) else None
    ensures Receives(script, k, got)
  {
    if script[k].Deliver? {
      SentCount(script[..k]);
      SentIs(script[..k], script[k].index);
    }
  }

  lemma CarriedIs(c: KS.Cipher, wire: seq<Wire>, sent: seq<Sent>, margin: nat, k: nat, a: Action)
    requires OnWire(c, wire, sent, margin) && k < |sent|
    requires if a.Send? then sent[k].Secret? && sent[k].payload == a.payload
             else if a.Spend? then sent[k].Plain? else sent[k] == Nothing
    ensures OverTheWire(c, a, wire[k], if sent[k] == Nothing then 0 else sent[k].pos)
  {
    hide KS.Cipher.Masked;
    assert Carries(c, wire[k], sent[k], margin);
    if a.Send? { c.CryptMasks(sent[k].pos + BLOCK_SIZE, a.payload); }
  }

  /** Such sessions there are: a payload is sent and delivered twice, after another packet. */
  lemma AnAdmissibleSession()
    ensures Admissible([Spend(5), Send([1, 2]), Deliver(1), Deliver(0), Deliver(1)], 2, TWO64 - 1)
  {
    var script: seq<Action> := [Spend(5), Send([1, 2]), Deliver(1), Deliver(0), Deliver(1)];
    assert script[..0] == [] && script[..1][..0] == [] && script[..2][..1] == script[..1];
    assert script[..3][..2] == script[..2] && script[..4][..3] == script[..3];
    assert Observe(script[..1]) == Session([Plain(0)], 10, 0);
    assert Observe(script[..2]) == Session([Plain(0), Secret(10, [1, 2])], 30, 0);
    assert Observe(script[..3]) == Session([Plain(0), Secret(10, [1, 2]), Nothing], 30, 10);
    assert Observe(script[..4]) == Session([Plain(0), Secret(10, [1, 2]), Nothing, Nothing], 30, 0);
  }
}
