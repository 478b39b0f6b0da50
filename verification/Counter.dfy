/** The 128 bit little-endian block counter of the stream cipher. */
module Counter {
  import opened Bytes
  import SeqNum

  const BLOCK_SIZE: nat := 16
  const TWO64: nat := 0x1_0000_0000_0000_0000
  const TWO128: nat := 0x1_0000_0000_0000_0000_0000_0000_0000_0000

  type Block = s: seq<byte> | |s| == BLOCK_SIZE witness seq(BLOCK_SIZE, _ => 0)

  /** The number a byte string stands for, least significant byte first. */
  function Value(s: seq<byte>): nat {
    if s == [] then 0 else s[0] + 256 * Value(s[1..])
  }

  function Pow256(n: nat): (p: nat)
    ensures p > 0
  {
    if n == 0 then 1 else 256 * Pow256(n - 1)
  }

  /** Ripple-carry addition of `v` (possibly negative) to a byte string. */
  function Sum(base: seq<byte>, v: int): (r: seq<byte>)
    ensures |r| == |base|
  {
    if base == [] then []
    else [(base[0] + v) % 256] + Sum(base[1..], (base[0] + v) / 256)
  }

  /** Ripple-carry addition is addition modulo a power of two. */
  lemma {:induction false} SumValue(base: seq<byte>, v: int)
    ensures Value(Sum(base, v)) == (Value(base) + v) % Pow256(|base|)
  {
    if base != [] {
      var x, m := base[0] + v, Pow256(|base| - 1);
      var rest := Value(base[1..]);
      SumValue(base[1..], x / 256);
      assert Sum(base, v)[1..] == Sum(base[1..], x / 256);
      calc {
        Value(Sum(base, v));
        x % 256 + 256 * ((rest + x / 256) % m);
        { LowDigit(x % 256, rest + x / 256, m); }
        (x % 256 + 256 * (rest + x / 256)) % (256 * m);
        (Value(base) + v) % (256 * m);
      }
    }
  }

  lemma LowDigit(d: int, y: int, m: int)
    requires 0 <= d < 256 && m > 0
    ensures (d + 256 * y) % (256 * m) == d + 256 * (y % m)
  {
    var q, r := y / m, d + 256 * (y % m);
    assert d + 256 * y == (256 * m) * q + r by { assert y == m * q + y % m; }
    SeqNum.DivModUnique(256 * m, q, r);
  }

  lemma {:induction false} SumZero(base: seq<byte>)
    ensures Sum(base, 0) == base
  {
    if base != [] { SumZero(base[1..]); }
  }

  /** Equally long byte strings with the same value are equal. */
  lemma {:induction false} ValueInjective(s: seq<byte>, t: seq<byte>)
    requires |s| == |t| && Value(s) == Value(t)
    ensures s == t
  {
    if s != [] {
      assert s[0] == Value(s) % 256 && t[0] == Value(t) % 256;
      ValueInjective(s[1..], t[1..]);
      assert s == [s[0]] + s[1..] && t == [t[0]] + t[1..];
    }
  }

  /** What is added to the counter when `v` is asked for: the sum of the lowest byte and `v` is
      formed in 64 bits and may wrap. */
  function Addend(base: Block, v: nat): int {
    if base[0] + v < TWO64 then v else v - TWO64
  }

  lemma Pow256Of16()
    ensures Pow256(16) == TWO128
  {
    assert Pow256(4) == 0x1_0000_0000;
    assert Pow256(8) == TWO64;
    assert Pow256(12) == 0x1_0000_0000_0000_0000_0000_0000;
  }

  /** Adding to the counter is addition modulo 2^128 exactly when the first step does not wrap. */
  lemma CounterIsSum(base: Block, v: nat)
    requires v < TWO64
    ensures Value(Sum(base, Addend(base, v))) == (Value(base) + v) % TWO128 <==> base[0] + v < TWO64
  {
    Pow256Of16();
    SumValue(base, Addend(base, v));
    if base[0] + v >= TWO64 {
      SeqNum.ModDistinctWitness(TWO128, Value(base) + v - TWO64, Value(base) + v);
    }
  }

  /** The carry into byte `i`. */
  ghost function Carry(base: seq<byte>, v: int, i: nat): int
    requires i <= |base|
  {
    if i == 0 then v else (base[i - 1] + Carry(base, v, i - 1)) / 256
  }

  lemma {:induction false} CarryShift(base: seq<byte>, v: int, i: nat)
    requires 0 < i <= |base|
    ensures Carry(base, v, i) == Carry(base[1..], (base[0] + v) / 256, i - 1)
  {
    if i > 1 { CarryShift(base, v, i - 1); }
  }

  lemma {:induction false} SumAt(base: seq<byte>, v: int, i: nat)
    requires i < |base|
    ensures Sum(base, v)[i] == (base[i] + Carry(base, v, i)) % 256
  {
    if i > 0 {
      SumAt(base[1..], (base[0] + v) / 256, i - 1);
      CarryShift(base, v, i);
    }
  }

  /** Without a carry the remaining bytes are copied. */
  lemma {:induction false} NoCarry(base: seq<byte>, v: int, i: nat, k: nat)
    requires i <= k < |base| && Carry(base, v, i) == 0
    ensures Carry(base, v, k) == 0 && Sum(base, v)[k] == base[k]
  {
    if i < k { NoCarry(base, v, i, k - 1); }
    SumAt(base, v, k);
  }

  lemma SliceIs(s: seq<byte>, off: nat, t: seq<byte>)
    requires off + |t| <= |s|
    requires forall k :: off <= k < off + |t| ==> s[k] == t[k - off]
    ensures s[off..off + |t|] == t
  {}

  /** Writes the sum of `base` and `v0` at `off`. */
  method CounterAdd(out: array<byte>, off: nat, base: Block, v0: nat)
    requires off + BLOCK_SIZE <= out.Length && v0 < TWO64
    modifies out
    ensures forall k :: 0 <= k < out.Length && !(off <= k < off + BLOCK_SIZE) ==> out[k] == old(out[k])
    ensures out[off..off + BLOCK_SIZE] == Sum(base, Addend(base, v0))
  {
    ghost var a := Addend(base, v0);
    var i := AddLoop(out, off, base, v0);
    if i < BLOCK_SIZE {
      forall k | i <= k < BLOCK_SIZE ensures Sum(base, a)[k] == base[k] {
        NoCarry(base, a, i, k);
      }
      forall k | i <= k < BLOCK_SIZE {
        out[off + k] := base[k];
      }
    }
    SliceIs(out[..], off, Sum(base, a));
  }

  /** The loop of the addition, which ends with the carry. */
  method AddLoop(out: array<byte>, off: nat, base: Block, v0: nat) returns (i: nat)
    requires off + BLOCK_SIZE <= out.Length && v0 < TWO64
    modifies out
    ensures 0 < i <= BLOCK_SIZE
    ensures i < BLOCK_SIZE ==> Carry(base, Addend(base, v0), i) == 0
    ensures forall k :: off <= k < off + i ==> out[k] == Sum(base, Addend(base, v0))[k - off]
    ensures forall k :: 0 <= k < out.Length && !(off <= k < off + i) ==> out[k] == old(out[k])
  {
    i := 0;
    var v := v0;
    ghost var a := Addend(base, v0);
    while true
      invariant 0 <= i < BLOCK_SIZE && 0 <= v < TWO64
      invariant if i == 0 then v == v0 else v == Carry(base, a, i) < TWO64 / 256
      invariant forall k :: off <= k < off + i ==> out[k] == Sum(base, a)[k - off]
      invariant forall k :: 0 <= k < out.Length && !(off <= k < off + i) ==> out[k] == old(out[k])
      decreases BLOCK_SIZE - i
    {
      SumAt(base, a, i);
      var r := (base[i] + v) % TWO64;
      assert r == base[i] + Carry(base, a, i);
      out[off + i] := r % 256;
      v := r / 256;
      i := i + 1;
      if i >= BLOCK_SIZE || v == 0 { return; }
    }
  }
}
