/** The key stream cache: a ring of key stream chunks that a background thread keeps filling, writing
    each chunk with the mutex released, and that readers use when it holds what they ask for. */
module GKCrypt {
  import opened Bytes
  import opened Counter
  import opened KeyStream
  import Memory
  import SeqNum

  const CHUNK: nat := 0x1000

  /** Where the background thread is: waiting for work with the mutex released, writing a chunk with the
      mutex released, or gone. */
  datatype Filler = Waiting | Writing(bufOffset: nat, keyPos: nat) | Ended

  lemma Multiple(chunks: nat)
    ensures (chunks * CHUNK) % CHUNK == 0 && (chunks > 0 ==> chunks * CHUNK >= CHUNK)
    ensures (chunks + 2) * CHUNK == chunks * CHUNK + 2 * CHUNK
  {
    SeqNum.DivModUnique(CHUNK, chunks, 0);
  }

  class GKCrypt {
    const cipher: Cipher
    /** KEY_BUF_CHUNK_SIZE */
    const chunkSize: nat
    const keyBuf: array<byte>
    var populated: nat
    var keyPosMin: nat
    var startOffset: nat
    var lastKeyPos: nat
    var threadStop: bool
    var filler: Filler

    /** The position that slot 0 of the ring stands for, up to whole rounds. */
    ghost var origin: int

    ghost function Slot(p: int): int
      requires keyBuf.Length > 0
      reads this`origin
    {
      (p - origin) % keyBuf.Length
    }

    ghost predicate Shape()
      reads this`populated, this`keyPosMin, this`startOffset, this`lastKeyPos, this`origin
    {
      && chunkSize > 0 && chunkSize % BLOCK_SIZE == 0
      && keyBuf.Length > 0 && keyBuf.Length % chunkSize == 0
      && populated <= keyBuf.Length && populated % chunkSize == 0
      && keyPosMin % chunkSize == 0 && origin % chunkSize == 0
      && startOffset == Slot(keyPosMin)
      && lastKeyPos + keyBuf.Length + 2 * chunkSize < TWO64
      && keyPosMin <= lastKeyPos + chunkSize
      && (keyBuf.Length > chunkSize ==> keyPosMin <= lastKeyPos)
    }

    /** The ring holds the key stream for every position of its window. */
    ghost predicate Coherent()
      requires keyBuf.Length > 0
      reads this`populated, this`keyPosMin, this`origin, keyBuf
    {
      forall p :: keyPosMin <= p < keyPosMin + populated ==> keyBuf[Slot(p)] == cipher.At(p)
    }

    /** The chunk being written is the one after the window, and there is room for it. */
    ghost predicate FillerOk()
      requires keyBuf.Length > 0
      reads this
    {
      filler.Writing? ==>
        && populated + chunkSize <= keyBuf.Length
        && filler.keyPos == keyPosMin + populated && filler.bufOffset == Slot(filler.keyPos)
    }

    ghost predicate Valid()
      reads this, keyBuf
    {
      keyBuf.Length > 0 ==> Shape() && Coherent() && FillerOk()
    }

    constructor (cipher: Cipher, chunks: nat)
      requires (chunks + 2) * CHUNK < TWO64
      ensures Valid() && fresh(keyBuf) && keyBuf.Length == chunks * 0x1000 && chunkSize == 0x1000
      ensures this.cipher == cipher
      ensures filler.Waiting? && lastKeyPos == 0 && keyPosMin == 0 && populated == 0 && !threadStop
    {
      this.cipher, chunkSize := cipher, CHUNK;
      Multiple(chunks);
      keyBuf := new byte[chunks * CHUNK];
      populated, keyPosMin, startOffset, lastKeyPos, threadStop := 0, 0, 0, 0, false;
      filler, origin := Waiting, 0;
      new;
      Started();
    }

    lemma Started()
      requires chunkSize == CHUNK && keyBuf.Length % CHUNK == 0 && keyBuf.Length + 2 * CHUNK < TWO64
      requires populated == keyPosMin == startOffset == lastKeyPos == 0 && origin == 0 && filler.Waiting?
      ensures Valid()
    {
      SeqNum.DivModUnique(CHUNK, 0, 0);
      if keyBuf.Length > 0 { SeqNum.DivModUnique(keyBuf.Length, 0, 0); }
      assert CHUNK % BLOCK_SIZE == 0;
    }

    predicate ShouldGenerate()
      reads this
    {
      lastKeyPos > keyPosMin + populated / 2
    }

    /** What the background thread waits for. */
    predicate HasWork()
      reads this
    {
      threadStop || populated < keyBuf.Length || ShouldGenerate()
    }

    /** The start and extent of the window once room has been made for another chunk. */
    ghost function NextWindow(): (nat, int)
      requires chunkSize > 0
      reads this
    {
      if lastKeyPos > keyPosMin + populated then (SeqNum.RoundDown(chunkSize, lastKeyPos), 0)
      else if populated == keyBuf.Length then (keyPosMin + chunkSize, populated - chunkSize)
      else (keyPosMin, populated)
    }

    /** Consecutive positions lie in consecutive slots, up to one wrap. */
    lemma SlotStep(p: int, i: int)
      requires keyBuf.Length > 0 && 0 <= i < keyBuf.Length
      ensures Slot(p + i) == if Slot(p) + i < keyBuf.Length then Slot(p) + i else Slot(p) + i - keyBuf.Length
    {
      SeqNum.ModStep(keyBuf.Length, p - origin, i);
      assert p + i - origin == p - origin + i;
    }

    /** A chunk does not wrap around the end of the ring. */
    lemma ChunkFits(p: int)
      requires Shape() && p % chunkSize == 0
      ensures 0 <= Slot(p) && Slot(p) + chunkSize <= keyBuf.Length
    {
      SeqNum.MultiplesAdd(chunkSize, p, origin);
      SeqNum.ChunkInRing(keyBuf.Length, chunkSize, p - origin);
    }

    /** No position of the window lies in the chunk after it. */
    lemma ChunkApart(p: int)
      requires Shape() && populated + chunkSize <= keyBuf.Length
      requires keyPosMin <= p < keyPosMin + populated
      ensures !(Slot(keyPosMin + populated) <= Slot(p) < Slot(keyPosMin + populated) + chunkSize)
    {
      SeqNum.MultiplesAdd(chunkSize, keyPosMin, populated);
      SeqNum.MultiplesAdd(chunkSize, keyPosMin + populated, origin);
      SeqNum.ChunkApart(keyBuf.Length, chunkSize, p - origin, keyPosMin + populated - origin);
    }

    lemma ChunkApartAll()
      requires Shape() && populated + chunkSize <= keyBuf.Length
      ensures forall p :: keyPosMin <= p < keyPosMin + populated ==>
                !(Slot(keyPosMin + populated) <= Slot(p) < Slot(keyPosMin + populated) + chunkSize)
    {
      forall p | keyPosMin <= p < keyPosMin + populated
        ensures !(Slot(keyPosMin + populated) <= Slot(p) < Slot(keyPosMin + populated) + chunkSize)
      {
        ChunkApart(p);
      }
    }

    lemma NextChunk()
      requires Shape() && FillerOk() && filler.Writing?
      ensures filler.keyPos % BLOCK_SIZE == 0 && filler.bufOffset + chunkSize <= keyBuf.Length
      ensures forall p :: keyPosMin <= p < keyPosMin + populated ==>
                !(filler.bufOffset <= Slot(p) < filler.bufOffset + chunkSize)
    {
      SeqNum.MultiplesAdd(chunkSize, keyPosMin, populated);
      SeqNum.DividesTransitive(filler.keyPos, chunkSize, BLOCK_SIZE);
      ChunkFits(filler.keyPos);
      ChunkApartAll();
    }

    /** Once the chunk after the window is right, the window can be extended by it. */
    lemma Extend()
      requires Shape() && Coherent() && populated + chunkSize <= keyBuf.Length
      requires Slot(keyPosMin + populated) + chunkSize <= keyBuf.Length
      requires var q := keyPosMin + populated;
               keyBuf[Slot(q)..Slot(q) + chunkSize] == cipher.Stream(q, chunkSize)
      ensures forall p :: keyPosMin <= p < keyPosMin + populated + chunkSize ==> keyBuf[Slot(p)] == cipher.At(p)
    {
      hide Cipher.At;
      var q := keyPosMin + populated;
      forall p | q <= p < q + chunkSize ensures keyBuf[Slot(p)] == cipher.At(p) {
        ChunkByte(q, p);
      }
    }

    lemma ChunkByte(q: nat, p: nat)
      requires Shape() && 0 <= Slot(q) && Slot(q) + chunkSize <= keyBuf.Length && q <= p < q + chunkSize
      requires keyBuf[Slot(q)..Slot(q) + chunkSize] == cipher.Stream(q, chunkSize)
      ensures keyBuf[Slot(p)] == cipher.At(p)
    {
      hide Cipher.At;
      SlotStep(q, p - q);
      assert keyBuf[Slot(p)] == keyBuf[Slot(q)..Slot(q) + chunkSize][p - q];
    }

    /** A read of `size` bytes at `keyPos`; the result says whether the background thread is to be woken. */
    method GetKeyStream(keyPos: nat, buf: array<byte>, size: nat) returns (signal: bool)
      requires Valid() && buf != keyBuf && size == buf.Length
      requires keyPos % BLOCK_SIZE == 0 && size % BLOCK_SIZE == 0
      requires keyPos + size + keyBuf.Length + 2 * chunkSize < TWO64
      modifies this`lastKeyPos, buf
      ensures Valid() && buf[..] == cipher.Stream(keyPos, size) && cipher.KeyBlocks(keyPos / BLOCK_SIZE, buf[..])
      ensures keyBuf.Length > 0 ==> lastKeyPos == if keyPos + size > old(lastKeyPos) then keyPos + size
                                                  else old(lastKeyPos)
      ensures keyBuf.Length > 0 ==> (signal <==> lastKeyPos > keyPosMin + populated / 2)
    {
      hide Cipher.KeyBlocks, Cipher.At;
      if keyBuf.Length == 0 {
        GenKeyStream(cipher, keyPos, buf, 0, size);
        assert buf[..] == buf[0..size];
        return false;
      }
      if keyPos + size > lastKeyPos {
        lastKeyPos := keyPos + size;
      }
      signal := ShouldGenerate();
      cipher.StreamBlocks(keyPos / BLOCK_SIZE, size);
      Fetch(keyPos, buf, size);
    }

    /** From the ring if it holds the whole stretch, else directly. */
    method Fetch(keyPos: nat, buf: array<byte>, size: nat)
      requires Shape() && Coherent() && buf != keyBuf && size == buf.Length
      requires keyPos % BLOCK_SIZE == 0 && size % BLOCK_SIZE == 0
      modifies buf
      ensures buf[..] == cipher.Stream(keyPos, size)
    {
      if keyPos < keyPosMin || keyPos + size >= keyPosMin + populated {
        GenKeyStream(cipher, keyPos, buf, 0, size);
      } else {
        CopyOut(keyPos, buf, size);
      }
    }

    /** Decrypts, or encrypts, a buffer in place at any position, aligned or not. */
    method Decrypt(keyPos: nat, buf: array<byte>)
      requires Valid() && buf != keyBuf
      requires keyPos + buf.Length + BLOCK_SIZE + keyBuf.Length + 2 * chunkSize < TWO64
      modifies this`lastKeyPos, buf
      ensures Valid() && buf[..] == cipher.Crypt(keyPos, old(buf[..])) && cipher.Masked(keyPos, old(buf[..]), buf[..])
    {
      cipher.CryptMasks(keyPos, buf[..]);
      var paddingPre := keyPos % BLOCK_SIZE;
      var fullSize := (paddingPre + buf.Length + BLOCK_SIZE - 1) / BLOCK_SIZE * BLOCK_SIZE;
      var keyStream := new byte[fullSize];
      var signal := GetKeyStream(keyPos - paddingPre, keyStream, fullSize);
      XorBytes(buf, keyStream, paddingPre);
      assert buf[..] == cipher.Crypt(keyPos, old(buf[..])) by {
        forall i | 0 <= i < buf.Length ensures buf[i] == Xor(old(buf[i]), cipher.At(keyPos + i)) {
          assert keyStream[paddingPre + i] == keyStream[..][paddingPre + i];
          assert keyPos - paddingPre + (paddingPre + i) == keyPos + i;
        }
      }
    }

    /** The copy out of the ring, in two pieces if it wraps. */
    method CopyOut(keyPos: nat, buf: array<byte>, size: nat)
      requires Shape() && Coherent() && buf != keyBuf && size == buf.Length
      requires keyPosMin <= keyPos && keyPos + size < keyPosMin + populated
      modifies buf
      ensures buf[..] == cipher.Stream(keyPos, size)
    {
      hide Cipher.At;
      OffsetIs(keyPos);
      var offset := (keyPos - keyPosMin + startOffset) % keyBuf.Length;
      ReadRing(offset, buf, size);
      forall i | 0 <= i < size ensures buf[i] == cipher.At(keyPos + i) {
        SlotStep(keyPos, i);
      }
    }

    lemma OffsetIs(keyPos: nat)
      requires Shape() && keyPosMin <= keyPos
      ensures (keyPos - keyPosMin + startOffset) % keyBuf.Length == Slot(keyPos)
    {
      SeqNum.AddResidue(keyBuf.Length, keyPosMin - origin, keyPos - keyPosMin);
    }

    /** Copies a stretch of the ring that may pass its end. */
    method ReadRing(offset: nat, buf: array<byte>, size: nat)
      requires offset < keyBuf.Length && size <= keyBuf.Length && buf != keyBuf && size == buf.Length
      modifies buf
      ensures forall i :: 0 <= i < size ==>
                buf[i] == keyBuf[if offset + i < keyBuf.Length then offset + i else offset + i - keyBuf.Length]
    {
      var end := offset + size;
      if end > keyBuf.Length {
        var excess := end - keyBuf.Length;
        Memory.Copy(keyBuf, offset, buf, 0, size - excess);
        Memory.Copy(keyBuf, 0, buf, size - excess, excess);
      } else {
        Memory.Copy(keyBuf, offset, buf, 0, size);
      }
    }

    /** Makes room for a chunk: skips ahead if a position beyond the window was asked for, or gives up the
        oldest chunk of a full window. */
    method MakeRoom()
      requires Shape() && Coherent() && (populated < keyBuf.Length || ShouldGenerate())
      modifies this`populated, this`keyPosMin, this`startOffset, this`origin
      ensures Shape() && Coherent() && populated + chunkSize <= keyBuf.Length && keyPosMin >= old(keyPosMin)
      ensures (keyPosMin, populated) == old(NextWindow())
    {
      if lastKeyPos > keyPosMin + populated {
        SkipAhead();
      } else if populated == keyBuf.Length {
        Shift();
      } else {
        SeqNum.MultipleBound(chunkSize, populated, keyBuf.Length);
      }
    }

    method SkipAhead()
      requires Shape() && lastKeyPos > keyPosMin + populated
      modifies this`populated, this`keyPosMin, this`startOffset, this`origin
      ensures Shape() && Coherent() && populated == 0 && chunkSize <= keyBuf.Length && keyPosMin >= old(keyPosMin)
      ensures keyPosMin == SeqNum.RoundDown(chunkSize, lastKeyPos)
    {
      SeqNum.MultipleAtLeast(chunkSize, keyBuf.Length);
      SeqNum.DivModUnique(chunkSize, 0, 0);
      SeqNum.DivModUnique(keyBuf.Length, 0, 0);
      var p := SeqNum.RoundDown(chunkSize, lastKeyPos);
      assert p >= keyPosMin by {
        if p < keyPosMin { SeqNum.MultipleBound(chunkSize, p, keyPosMin); }
      }
      keyPosMin := p;
      startOffset, populated, origin := 0, 0, p;
    }

    method Shift()
      requires Shape() && Coherent() && populated == keyBuf.Length && ShouldGenerate()
      modifies this`populated, this`keyPosMin, this`startOffset
      ensures Shape() && Coherent() && populated == old(populated) - chunkSize
      ensures keyPosMin == old(keyPosMin) + chunkSize
    {
      SeqNum.MultipleAtLeast(chunkSize, keyBuf.Length);
      SeqNum.DivModUnique(chunkSize, 1, 0);
      if keyBuf.Length > chunkSize { SeqNum.MultipleBound(chunkSize, chunkSize, keyBuf.Length); }
      SeqNum.AddResidue(keyBuf.Length, keyPosMin - origin, chunkSize);
      SeqNum.MultiplesAdd(chunkSize, keyPosMin, chunkSize);
      SeqNum.MultiplesAdd(chunkSize, populated, chunkSize);
      assert keyPosMin - origin + chunkSize == keyPosMin + chunkSize - origin;
      startOffset := (startOffset + chunkSize) % keyBuf.Length;
      keyPosMin := keyPosMin + chunkSize;
      populated := populated - chunkSize;
    }

    /** The background thread finds work: it ends, or makes room for a chunk and begins to write it. */
    method FillerWake()
      requires Valid() && keyBuf.Length > 0 && filler.Waiting? && HasWork()
      modifies this`filler, this`populated, this`keyPosMin, this`startOffset, this`origin
      ensures Valid() && keyPosMin >= old(keyPosMin)
      ensures threadStop ==> filler.Ended? && keyPosMin == old(keyPosMin) && populated == old(populated)
      ensures !threadStop ==>
                && filler.Writing? && filler.keyPos == keyPosMin + populated
                && chunkSize > 0 && (keyPosMin, populated) == old(NextWindow())
      ensures !threadStop && lastKeyPos > old(keyPosMin + populated) ==>
                populated == 0 && keyPosMin % chunkSize == 0 && keyPosMin <= lastKeyPos < keyPosMin + chunkSize
      ensures !threadStop && lastKeyPos <= old(keyPosMin + populated) && old(populated) == keyBuf.Length ==>
                keyPosMin == old(keyPosMin) + chunkSize && populated == old(populated) - chunkSize
      ensures !threadStop && lastKeyPos <= old(keyPosMin + populated) && old(populated) < keyBuf.Length ==>
                keyPosMin == old(keyPosMin) && populated == old(populated)
    {
      if threadStop {
        filler := Ended;
        return;
      }
      MakeRoom();
      assert populated + chunkSize <= keyBuf.Length;
      SeqNum.AddResidue(keyBuf.Length, keyPosMin - origin, populated);
      assert keyPosMin - origin + populated == keyPosMin + populated - origin;
      filler := Writing((startOffset + populated) % keyBuf.Length, keyPosMin + populated);
    }

    /** While the chunk is being written its part of the ring may hold anything. */
    method FillerScribble(garbage: seq<byte>)
      requires Valid() && keyBuf.Length > 0 && filler.Writing? && |garbage| == chunkSize
      modifies keyBuf
      ensures Valid()
    {
      NextChunk();
      Memory.Store(keyBuf, filler.bufOffset, garbage);
    }

    method Grow()
      requires Shape() && filler.Waiting? && populated + chunkSize <= keyBuf.Length
      requires forall p :: keyPosMin <= p < keyPosMin + populated + chunkSize ==> keyBuf[Slot(p)] == cipher.At(p)
      modifies this`populated
      ensures Valid() && populated == old(populated) + chunkSize
    {
      SeqNum.DivModUnique(chunkSize, 1, 0);
      SeqNum.MultiplesAdd(chunkSize, populated, chunkSize);
      populated := populated + chunkSize;
    }

    /** The chunk is complete, or its generation failed. */
    method FillerFinish(ok: bool)
      requires Valid() && keyBuf.Length > 0 && filler.Writing?
      modifies this`filler, this`populated, keyBuf
      ensures Valid() && populated == old(populated) + if ok then chunkSize else 0
      ensures filler == if ok then Waiting else Ended
    {
      if ok {
        FillChunk();
        filler := Waiting;
        Grow();
      } else {
        filler := Ended;
      }
    }

    /** Writes the chunk after the window. */
    method FillChunk()
      requires Valid() && keyBuf.Length > 0 && filler.Writing?
      modifies keyBuf
      ensures Shape() && populated + chunkSize <= keyBuf.Length
      ensures forall p :: keyPosMin <= p < keyPosMin + populated + chunkSize ==> keyBuf[Slot(p)] == cipher.At(p)
    {
      NextChunk();
      GenKeyStream(cipher, filler.keyPos, keyBuf, filler.bufOffset, chunkSize);
      Extend();
    }
  }

  method XorBytes(dst: array<byte>, src: array<byte>, from: nat)
    requires dst != src && from + dst.Length <= src.Length
    modifies dst
    ensures forall i :: 0 <= i < dst.Length ==> dst[i] == Xor(old(dst[i]), src[from + i])
  {
    var i := 0;
    while i < dst.Length
      invariant i <= dst.Length
      invariant forall k :: 0 <= k < i ==> dst[k] == Xor(old(dst[k]), src[from + k])
      invariant forall k :: i <= k < dst.Length ==> dst[k] == old(dst[k])
    {
      dst[i] := Xor(dst[i], src[from + i]);
      i := i + 1;
    }
  }

  /** What can happen to a key stream cache: a reader asks for a stretch, the background thread wakes,
      leaves the chunk it is writing in some intermediate state, completes it or fails, or is to stop. */
  datatype Action =
    | Request(keyPos: nat, size: nat)
    | Wake
    | Scribble(garbage: seq<byte>)
    | Finish(ok: bool)
    | Stop

  /** A request is answered with as many bytes as it asks for, which are what direct generation gives: for each block
      its counter, encrypted. Nothing else is answered. */
  ghost predicate Answers(c: Cipher, a: Action, out: seq<byte>) {
    if a.Request? then
      |out| == a.size && c.KeyBlocks(a.keyPos / BLOCK_SIZE, out) && out == c.Stream(a.keyPos, a.size)
    else out == []
  }

  /** Some request so far has reached a position. */
  predicate Asked(script: seq<Action>, p: nat) {
    exists j :: 0 <= j < |script| && script[j].Request? && p <= script[j].keyPos + script[j].size
  }

  lemma {:induction false} HighWaterAsked(script: seq<Action>)
    ensures HighWater(script) > 0 ==> Asked(script, HighWater(script))
  {
    if script != [] {
      var n := |script| - 1;
      HighWaterAsked(script[..n]);
      if HighWater(script) > 0 && HighWater(script) == HighWater(script[..n]) {
        var j :| 0 <= j < n && script[..n][j].Request?
                 && HighWater(script) <= script[..n][j].keyPos + script[..n][j].size;
        assert script[j] == script[..n][j];
      }
    }
  }

  /** The end of the furthest request. */
  function HighWater(script: seq<Action>): nat {
    if script == [] then 0
    else
      var a, rest := script[|script| - 1], HighWater(script[..|script| - 1]);
      if a.Request? && a.keyPos + a.size > rest then a.keyPos + a.size else rest
  }

  predicate Proper(a: Action, chunks: nat) {
    a.Request? ==>
      && a.keyPos % BLOCK_SIZE == 0 && a.size % BLOCK_SIZE == 0
      && a.keyPos + a.size + (chunks + 2) * CHUNK < TWO64
  }

  method Act(g: GKCrypt, a: Action) returns (out: seq<byte>)
    requires g.Valid() && g.keyBuf.Length > 0 && (a.Request? ==> a.keyPos % BLOCK_SIZE == 0 && a.size % BLOCK_SIZE == 0)
    requires a.Request? ==> a.keyPos + a.size + g.keyBuf.Length + 2 * g.chunkSize < TWO64
    modifies g, g.keyBuf
    ensures g.Valid() && g.keyPosMin >= old(g.keyPosMin)
    ensures Answers(g.cipher, a, out)
    ensures g.lastKeyPos == if a.Request? && a.keyPos + a.size > old(g.lastKeyPos) then a.keyPos + a.size
                            else old(g.lastKeyPos)
  {
    out := [];
    match a
    case Request(keyPos, size) =>
      var buf := new byte[size];
      var signal := g.GetKeyStream(keyPos, buf, size);
      out := buf[..];
    case Wake =>
      if g.filler.Waiting? && g.HasWork() { g.FillerWake(); }
    case Scribble(garbage) =>
      if g.filler.Writing? && |garbage| == g.chunkSize { g.FillerScribble(garbage); }
    case Finish(ok) =>
      if g.filler.Writing? { g.FillerFinish(ok); }
    case Stop =>
      g.threadStop := true;
  }

  /** With a ring of a single chunk the window can start past the furthest request. */
  method OneChunkOvertakes(c: Cipher) returns (keyPosMin: nat, lastKeyPos: nat)
    ensures keyPosMin == CHUNK && lastKeyPos == CHUNK / 2 + BLOCK_SIZE
  {
    var g := new GKCrypt(c, 1);
    var buf := new byte[CHUNK / 2 + BLOCK_SIZE];
    var signal := g.GetKeyStream(0, buf, CHUNK / 2 + BLOCK_SIZE);
    FillOnce(g);
    g.FillerWake();
    return g.keyPosMin, g.lastKeyPos;
  }

  method FillOnce(g: GKCrypt)
    requires g.Valid() && g.keyBuf.Length == g.chunkSize > 0 && g.filler.Waiting? && !g.threadStop
    requires g.populated == 0 && g.lastKeyPos < g.chunkSize && g.keyPosMin == 0
    modifies g, g.keyBuf
    ensures g.Valid() && g.populated == g.chunkSize && g.keyPosMin == 0 && g.filler.Waiting? && !g.threadStop
    ensures g.lastKeyPos == old(g.lastKeyPos)
  {
    SeqNum.DivModUnique(g.chunkSize, 0, g.lastKeyPos);
    g.FillerWake();
    g.FillerFinish(true);
  }

  /** Over every interleaving of readers and background thread: each request is answered with exactly the
      bytes of direct generation, the window never moves backwards and, given two chunks, never starts
      past the furthest request. */
  method RunSchedule(c: Cipher, chunks: nat, script: seq<Action>) returns (outs: seq<seq<byte>>, mins: seq<nat>)
    requires chunks > 0 && (chunks + 2) * CHUNK < TWO64
    requires forall i :: 0 <= i < |script| ==> Proper(script[i], chunks)
    ensures |outs| == |script| && forall i :: 0 <= i < |script| ==> Answers(c, script[i], outs[i])
    ensures |mins| == |script| && forall i, j :: 0 <= i < j < |mins| ==> mins[i] <= mins[j]
    ensures chunks >= 2 ==> forall i :: 0 <= i < |mins| ==> mins[i] == 0 || Asked(script[..i + 1], mins[i])
  {
    hide Answers;
    var g := new GKCrypt(c, chunks);
    outs, mins := [], [];
    var k := 0;
    while k < |script|
      invariant k <= |script| && fresh(g) && fresh(g.keyBuf) && g.Valid()
      invariant |outs| == k && forall i :: 0 <= i < k ==> Answers(c, script[i], outs[i])
      invariant g.cipher == c && g.lastKeyPos == HighWater(script[..k])
      invariant |mins| == k && forall i, j :: 0 <= i < j < |mins| ==> mins[i] <= mins[j]
      invariant forall i :: 0 <= i < |mins| ==> mins[i] <= g.keyPosMin
      invariant chunks >= 2 ==> forall i :: 0 <= i < |mins| ==> mins[i] <= HighWater(script[..i + 1])
    {
      assert script[..k + 1][..k] == script[..k];
      var out := Act(g, script[k]);
      outs, mins := outs + [out], mins + [g.keyPosMin];
      k := k + 1;
    }
    forall i | 0 <= i < |mins| && chunks >= 2 ensures mins[i] == 0 || Asked(script[..i + 1], mins[i]) {
      HighWaterAsked(script[..i + 1]);
    }
  }
}
