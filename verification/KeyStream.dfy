/** The key stream of a connection: block cipher over a counter, generated directly. */
module KeyStream {
  import opened Bytes
  import opened Counter
  import SeqNum

  const TWO31: nat := 0x8000_0000
  const TWO32: nat := 0x1_0000_0000

  /** Conversion to a 32 bit signed integer. */
  function ToInt32(n: int): int {
    (n + TWO31) % TWO32 - TWO31
  }

  /** The `k`th block of some bytes. */
  function BlockAt(s: seq<byte>, k: nat): (b: seq<byte>)
    requires k < |s| / BLOCK_SIZE
    ensures |b| == BLOCK_SIZE
  {
    s[BLOCK_SIZE * k..BLOCK_SIZE * k + BLOCK_SIZE]
  }

  datatype Cipher = Cipher(encrypt: Block -> Block, iv: Block) {
    /** The number added to the counter for block `n`: the block number passes through an `int`
        on its way to a 64 bit parameter. */
    function CounterArg(n: int): nat {
      ToInt32(n) % TWO64
    }

    function CounterBlock(n: int): Block {
      Sum(iv, Addend(iv, CounterArg(n)))
    }

    /** The key stream byte at a position. */
    function At(p: int): byte {
      encrypt(CounterBlock(p / BLOCK_SIZE))[p % BLOCK_SIZE]
    }

    function Stream(p: int, len: nat): (s: seq<byte>)
      ensures |s| == len && forall i :: 0 <= i < len ==> s[i] == At(p + i)
    {
      seq<byte>(len, i requires 0 <= i < len => At(p + i))
    }

    /** Encryption and decryption of data at a position. */
    function Crypt(p: int, data: seq<byte>): (r: seq<byte>)
      ensures |r| == |data| && forall i :: 0 <= i < |data| ==> r[i] == Xor(data[i], At(p + i))
    {
      seq<byte>(|data|, i requires 0 <= i < |data| => Xor(data[i], At(p + i)))
    }

    /** Decryption undoes encryption at the same position. */
    lemma CryptTwice(p: int, data: seq<byte>)
      ensures Crypt(p, Crypt(p, data)) == data
    {
      forall i | 0 <= i < |data| ensures Crypt(p, Crypt(p, data))[i] == data[i] {
        XorBack(data[i], At(p + i));
      }
    }

    /** Adjacent pieces can be decrypted separately. */
    lemma CryptSplit(p: int, a: seq<byte>, b: seq<byte>)
      ensures Crypt(p, a + b) == Crypt(p, a) + Crypt(p + |a|, b)
    {
      forall i | |a| <= i < |a + b| ensures Crypt(p, a + b)[i] == Crypt(p + |a|, b)[i - |a|] {
        assert p + |a| + (i - |a|) == p + i;
      }
    }

    /** `k` counter blocks from block `n` on. */
    function Counters(n: int, k: nat): (s: seq<byte>)
      ensures |s| == BLOCK_SIZE * k
    {
      if k == 0 then [] else Counters(n, k - 1) + CounterBlock(n + k - 1)
    }

    lemma CountersSlice(n: int, k: nat, j: nat)
      requires j < k
      ensures Counters(n, k)[BLOCK_SIZE * j..BLOCK_SIZE * j + BLOCK_SIZE] == CounterBlock(n + j)
    {
      if j < k - 1 {
        CountersSlice(n, k - 1, j);
        assert Counters(n, k)[..BLOCK_SIZE * (k - 1)] == Counters(n, k - 1);
      }
    }

    /** Where the counter of block `n + k` stands in a buffer that holds the counters at `off`. */
    lemma CountersAt(s: seq<byte>, off: nat, n: int, blocks: nat, k: nat)
      requires k < blocks && off + BLOCK_SIZE * blocks <= |s|
      requires s[off..off + BLOCK_SIZE * blocks] == Counters(n, blocks)
      ensures var at := off + BLOCK_SIZE * k;
              forall i :: at <= i < at + BLOCK_SIZE ==> s[i] == CounterBlock(n + k)[i - at]
    {
      CountersSlice(n, blocks, k);
      var at, b := off + BLOCK_SIZE * k, CounterBlock(n + k);
      forall i | at <= i < at + BLOCK_SIZE ensures s[i] == b[i - at] {
        assert s[i] == s[off..off + BLOCK_SIZE * blocks][i - off];
        assert b[i - at] == Counters(n, blocks)[BLOCK_SIZE * k..BLOCK_SIZE * k + BLOCK_SIZE][i - at];
      }
    }

    lemma AddendOfBlock(n: nat)
      requires n < TWO64 / BLOCK_SIZE
      ensures var a := Addend(iv, CounterArg(n)); (a == n <==> n < TWO31) && a - n < TWO128 && n - a < TWO128
    {
      var c := ToInt32(n);
      var q := (n + TWO31) / TWO32;
      assert n == c + TWO32 * q;
      assert CounterArg(n) == if c >= 0 then c else c + TWO64;
    }

    /** The counter of block `n` is the initialization vector plus `n`, modulo 2^128, exactly for the
        first 2^31 blocks (block numbers are below 2^60, positions being 64 bit). */
    lemma CounterBlockValue(n: nat)
      requires n < TWO64 / BLOCK_SIZE
      ensures Value(CounterBlock(n)) == (Value(iv) + n) % TWO128 <==> n < TWO31
    {
      var a := Addend(iv, CounterArg(n));
      Pow256Of16();
      SumValue(iv, a);
      AddendOfBlock(n);
      if n >= TWO31 {
        SeqNum.ModDistinctWitness(TWO128, Value(iv) + a, Value(iv) + n);
      }
    }

    /** Two blocks have the same counter iff their numbers agree modulo 2^32. */
    lemma CounterBlocksEqual(n: int, m: int)
      ensures CounterBlock(n) == CounterBlock(m) <==> n % 0x1_0000_0000 == m % 0x1_0000_0000
    {
      hide Counter.Sum;
      ArgsEqual(n, m);
      if CounterArg(n) != CounterArg(m) {
        DifferentSums(CounterArg(n), CounterArg(m));
      }
    }

    lemma ArgsEqual(n: int, m: int)
      ensures CounterArg(n) == CounterArg(m) <==> n % 0x1_0000_0000 == m % 0x1_0000_0000
    {
      Residue32(n);
      Residue32(m);
    }

    /** The number added determines the block number modulo 2^32, and is determined by it. */
    lemma Residue32(n: int)
      ensures var r := n % 0x1_0000_0000; CounterArg(n) == if r < TWO31 then r else TWO64 + r - TWO32
    {
      var q, r := n / 0x1_0000_0000, n % 0x1_0000_0000;
      assert n + TWO31 == TWO32 * q + (r + TWO31);
      if r < TWO31 {
        SeqNum.DivModUnique(TWO32, q, r + TWO31);
      } else {
        assert n + TWO31 == TWO32 * (q + 1) + (r - TWO31);
        SeqNum.DivModUnique(TWO32, q + 1, r - TWO31);
      }
    }

    lemma DifferentSums(v: nat, w: nat)
      requires v < TWO64 && w < TWO64 && v != w
      ensures Sum(iv, Addend(iv, v)) != Sum(iv, Addend(iv, w))
    {
      hide Counter.Sum;
      Pow256Of16();
      SumValue(iv, Addend(iv, v));
      SumValue(iv, Addend(iv, w));
      SeqNum.ModDistinctWitness(TWO128, Value(iv) + Addend(iv, v), Value(iv) + Addend(iv, w));
    }

    /** The number added to the initialization vector for block `n`: `n` itself for the first 2^31 blocks. From
        then on, modulo 2^32, the number has become negative, and its 64 bit form is added unless the lowest byte
        makes that wrap. */
    function Added(n: nat): (a: int)
      ensures n < TWO31 ==> a == n
    {
      var m := n % 0x1_0000_0000;
      if m < TWO31 then m else if iv[0] + m < TWO32 then TWO64 - TWO32 + m else m - TWO32
    }

    /** The counter of block `n`, as a number modulo 2^128. */
    ghost predicate CounterOf(b: Block, n: nat) {
      Value(b) == (Value(iv) + Added(n)) % TWO128
    }

    /** Block `n` of the key stream: the counter of that block, encrypted. */
    ghost predicate KeyBlock(n: nat, s: seq<byte>) {
      exists b: Block :: CounterOf(b, n) && s == encrypt(b)
    }

    /** The blocks of a stretch of key stream that begins with block `n`. */
    ghost predicate KeyBlocks(n: nat, s: seq<byte>) {
      forall k :: 0 <= k < |s| / BLOCK_SIZE ==> KeyBlock(n + k, BlockAt(s, k))
    }

    /** A byte combined with the key stream byte at position `p`: each bit is the parity of the two. */
    ghost predicate MaskedByte(p: nat, a: byte, r: byte) {
      exists b: Block :: CounterOf(b, p / BLOCK_SIZE)
                         && forall k :: 0 <= k < 8 ==>
                              Bit(r, k) == (Bit(a, k) + Bit(encrypt(b)[p % BLOCK_SIZE], k)) % 2
    }

    ghost predicate Masked(p: nat, plain: seq<byte>, masked: seq<byte>) {
      |masked| == |plain| && forall i :: 0 <= i < |plain| ==> MaskedByte(p + i, plain[i], masked[i])
    }

    lemma CounterBlockIs(n: nat)
      ensures CounterOf(CounterBlock(n), n)
    {
      hide Counter.Sum;
      Pow256Of16();
      Residue32(n);
      SumValue(iv, Addend(iv, CounterArg(n)));
    }

    /** There is just one counter for each block. */
    lemma CounterUnique(b: Block, n: nat)
      requires CounterOf(b, n)
      ensures b == CounterBlock(n)
    {
      CounterBlockIs(n);
      ValueInjective(b, CounterBlock(n));
    }

    lemma StreamBlocks(n: nat, len: nat)
      ensures KeyBlocks(n, Stream(BLOCK_SIZE * n, len))
    {
      hide CounterOf, CounterBlock;
      var s := Stream(BLOCK_SIZE * n, len);
      forall k | 0 <= k < |s| / BLOCK_SIZE ensures KeyBlock(n + k, BlockAt(s, k)) {
        var b := CounterBlock(n + k);
        CounterBlockIs(n + k);
        forall i | 0 <= i < BLOCK_SIZE ensures BlockAt(s, k)[i] == encrypt(b)[i] {
          SeqNum.DivModUnique(BLOCK_SIZE, n + k, i);
          assert s[BLOCK_SIZE * k + i] == At(BLOCK_SIZE * (n + k) + i);
        }
        assert BlockAt(s, k) == encrypt(b);
      }
    }

    lemma CryptMasks(p: nat, data: seq<byte>)
      ensures Masked(p, data, Crypt(p, data))
    {
      hide CounterOf, CounterBlock, Xor;
      forall i | 0 <= i < |data| ensures MaskedByte(p + i, data[i], Crypt(p, data)[i]) {
        CounterBlockIs((p + i) / BLOCK_SIZE);
      }
    }

    /** A key stream byte is a byte of an encrypted counter; this names the counter and the place in it. */
    function Source(p: int): (Block, nat) {
      (CounterBlock(p / BLOCK_SIZE), p % BLOCK_SIZE)
    }

    /** Two positions take the same byte of the same encrypted counter iff they agree modulo 2^36, and then the key
        stream bytes there are equal whatever the block cipher. */
    lemma SharedByte(p: int, q: int)
      ensures Source(p) == Source(q) <==> p % 0x10_0000_0000 == q % 0x10_0000_0000
      ensures Source(p) == Source(q) ==> At(p) == At(q)
    {
      CounterBlocksEqual(p / BLOCK_SIZE, q / BLOCK_SIZE);
      Residue36(p);
      Residue36(q);
    }

    lemma Residue36(p: int)
      ensures p % 0x10_0000_0000 == p / BLOCK_SIZE % 0x1_0000_0000 * BLOCK_SIZE + p % BLOCK_SIZE
    {
      var n, r := p / BLOCK_SIZE, p % BLOCK_SIZE;
      var q, m := n / 0x1_0000_0000, n % 0x1_0000_0000;
      assert p == 0x10_0000_0000 * q + (m * BLOCK_SIZE + r);
      SeqNum.DivModUnique(0x10_0000_0000, q, m * BLOCK_SIZE + r);
    }
  }

  /** Fills a stretch of a buffer with key stream: first the counters, then encryption in place. */
  method GenKeyStream(c: Cipher, keyPos: nat, buf: array<byte>, off: nat, size: nat)
    requires keyPos % BLOCK_SIZE == 0 && size % BLOCK_SIZE == 0 && off + size <= buf.Length
    modifies buf
    ensures buf[off..off + size] == c.Stream(keyPos, size) && c.KeyBlocks(keyPos / BLOCK_SIZE, buf[off..off + size])
    ensures forall k :: 0 <= k < buf.Length && !(off <= k < off + size) ==> buf[k] == old(buf[k])
  {
    c.StreamBlocks(keyPos / BLOCK_SIZE, size);
    WriteCounters(c, keyPos / BLOCK_SIZE, buf, off, size);
    EncryptBlocks(c, keyPos / BLOCK_SIZE, buf, off, size);
  }

  method WriteCounters(c: Cipher, n: nat, buf: array<byte>, off: nat, size: nat)
    requires size % BLOCK_SIZE == 0 && off + size <= buf.Length
    modifies buf
    ensures buf[off..off + size] == c.Counters(n, size / BLOCK_SIZE)
    ensures forall k :: 0 <= k < buf.Length && !(off <= k < off + size) ==> buf[k] == old(buf[k])
  {
    hide ToInt32, Cipher.CounterBlock;
    var counterOffset := ToInt32(n);
    var cur, k := 0, 0;
    while cur < size
      invariant cur == BLOCK_SIZE * k <= size && counterOffset == ToInt32(n + k)
      invariant buf[off..off + cur] == c.Counters(n, k)
      invariant forall k :: 0 <= k < buf.Length && !(off <= k < off + size) ==> buf[k] == old(buf[k])
    {
      WriteCounter(c, n + k, counterOffset, buf, off, cur);
      ToInt32Next(n + k);
      counterOffset := ToInt32(counterOffset + 1);
      cur, k := cur + BLOCK_SIZE, k + 1;
    }
  }

  lemma ToInt32Next(n: int)
    ensures ToInt32(ToInt32(n) + 1) == ToInt32(n + 1)
  {}

  /** Appends one counter to those written so far. */
  method WriteCounter(c: Cipher, ghost n: nat, counterOffset: int, buf: array<byte>, off: nat, cur: nat)
    requires off + cur + BLOCK_SIZE <= buf.Length && counterOffset == ToInt32(n)
    modifies buf
    ensures buf[off..off + cur + BLOCK_SIZE] == old(buf[off..off + cur]) + c.CounterBlock(n)
    ensures forall k :: 0 <= k < buf.Length && !(off + cur <= k < off + cur + BLOCK_SIZE) ==> buf[k] == old(buf[k])
  {
    CounterAdd(buf, off + cur, c.iv, counterOffset % TWO64);
    assert buf[off..off + cur] == old(buf[off..off + cur]);
    assert buf[off..off + cur + BLOCK_SIZE] == buf[off..off + cur] + buf[off + cur..off + cur + BLOCK_SIZE];
  }

  method EncryptBlocks(c: Cipher, ghost n: nat, buf: array<byte>, off: nat, size: nat)
    requires size % BLOCK_SIZE == 0 && off + size <= buf.Length
    requires buf[off..off + size] == c.Counters(n, size / BLOCK_SIZE)
    modifies buf
    ensures buf[off..off + size] == c.Stream(BLOCK_SIZE * n, size)
    ensures forall k :: 0 <= k < buf.Length && !(off <= k < off + size) ==> buf[k] == old(buf[k])
  {
    var cur := 0;
    ghost var k, shift, blocks := 0, BLOCK_SIZE * n - off, size / BLOCK_SIZE;
    ghost var before := buf[..];
    while cur < size
      invariant cur == BLOCK_SIZE * k && k <= blocks
      invariant forall i :: off <= i < off + cur ==> buf[i] == c.At(i + shift)
      invariant forall i :: 0 <= i < buf.Length && !(off <= i < off + cur) ==> buf[i] == before[i]
    {
      c.CountersAt(before, off, n, blocks, k);
      EncryptInPlace(c, n + k, buf, off + cur, shift);
      cur, k := cur + BLOCK_SIZE, k + 1;
    }
    SliceIs(buf[..], off, c.Stream(BLOCK_SIZE * n, size));
  }

  method EncryptInPlace(c: Cipher, ghost n: nat, buf: array<byte>, at: nat, ghost shift: int)
    requires at + BLOCK_SIZE <= buf.Length && at + shift == BLOCK_SIZE * n
    requires forall i :: at <= i < at + BLOCK_SIZE ==> buf[i] == c.CounterBlock(n)[i - at]
    modifies buf
    ensures forall i :: at <= i < at + BLOCK_SIZE ==> buf[i] == c.At(i + shift)
    ensures forall i :: 0 <= i < buf.Length && !(at <= i < at + BLOCK_SIZE) ==> buf[i] == old(buf[i])
  {
    SliceIs(buf[..], at, c.CounterBlock(n));
    var e := c.encrypt(buf[at..at + BLOCK_SIZE]);
    forall k | 0 <= k < BLOCK_SIZE {
      buf[at + k] := e[k];
    }
    forall i | at <= i < at + BLOCK_SIZE ensures buf[i] == c.At(i + shift) {
      assert (i + shift) / BLOCK_SIZE == n && (i + shift) % BLOCK_SIZE == i - at;
    }
  }
}
