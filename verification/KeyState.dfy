/** Recovery of 64 bit key stream positions from their low 32 bits. */
module KeyState {
  import SeqNum

  const TWO31: nat := 0x8000_0000
  const TWO32: nat := 0x1_0000_0000
  const TWO64: nat := 0x1_0000_0000_0000_0000

  function Reconstruct(prev: nat, low: nat): (pos: nat)
    requires prev < TWO64 && low < TWO32
    ensures pos < TWO64
  {
    var prevLow, high := prev % TWO32, prev / TWO32;
    var high' :=
      if SeqNum.Gt(TWO32, low, prevLow) && low < prevLow then (high + 1) % TWO32
      else if SeqNum.Lt(TWO32, low, prevLow) && low > prevLow && high > 0 then high - 1
      else high;
    high' * TWO32 + low
  }

  predicate Within31(prev: nat, pos: nat) {
    pos < prev + TWO31 && prev < pos + TWO31
  }

  /** Any position less than 2^31 away is recovered, in either direction and across 2^32 boundaries. */
  lemma ReconstructExact(prev: nat, pos: nat)
    requires prev < TWO64 && pos < TWO64 && Within31(prev, pos)
    ensures Reconstruct(prev, pos % TWO32) == pos
  {
    SeqNum.SerialOrder(TWO32, pos, prev);
    Halves(prev, pos);
  }

  lemma Halves(prev: nat, pos: nat)
    requires Within31(prev, pos)
    ensures prev == prev / TWO32 * TWO32 + prev % TWO32 && pos == pos / TWO32 * TWO32 + pos % TWO32
    ensures -1 <= pos / TWO32 - prev / TWO32 <= 1
    ensures pos / TWO32 == prev / TWO32 + 1 ==> pos % TWO32 < prev % TWO32
    ensures pos / TWO32 == prev / TWO32 - 1 ==> pos % TWO32 > prev % TWO32
    ensures pos / TWO32 == prev / TWO32 ==> (pos < prev <==> pos % TWO32 < prev % TWO32)
  {}

  /** A position recovered once is recovered again after it has been committed. */
  lemma ReconstructAgain(prev: nat, low: nat)
    requires prev < TWO64 && low < TWO32
    ensures Reconstruct(Reconstruct(prev, low), low) == Reconstruct(prev, low)
  {
    var pos := Reconstruct(prev, low);
    assert pos % TWO32 == low;
    ReconstructExact(pos, pos);
  }

  /** Exactly when a position is recovered: besides those nearer than 2^31, one at that very distance if it
      needs no carry, and, where the upper half cannot go below zero or wraps, a few more. */
  lemma ReconstructIff(prev: nat, pos: nat)
    requires prev < TWO64 && pos < TWO64
    ensures Reconstruct(prev, pos % TWO32) == pos <==>
              || Within31(prev, pos)
              || (pos / TWO32 == prev / TWO32 && (pos == prev + TWO31 || prev == pos + TWO31))
              || (prev < TWO32 && pos < TWO32 && pos >= prev)
              || (prev >= TWO64 - TWO32 && pos + TWO64 < prev + TWO31)
  {}

  class KeyState {
    var prev: nat

    constructor ()
      ensures prev == 0
    {
      prev := 0;
    }

    method RequestPos(low: nat, commit: bool) returns (pos: nat)
      requires prev < TWO64 && low < TWO32
      modifies this
      ensures pos == Reconstruct(old(prev), low) && pos < TWO64
      ensures prev == if commit then pos else old(prev)
    {
      var prevLow, high := prev % TWO32, prev / TWO32;
      if SeqNum.Gt(TWO32, low, prevLow) && low < prevLow {
        high := (high + 1) % TWO32;
      } else if SeqNum.Lt(TWO32, low, prevLow) && low > prevLow && high > 0 {
        high := high - 1;
      }
      pos := high * TWO32 + low;
      if commit {
        prev := pos;
      }
    }

    method Commit(pos: nat)
      modifies this
      ensures prev == pos
    {
      prev := pos;
    }
  }

  /** A request for a true position, of which only the low half is sent. */
  datatype Request = Request(pos: nat, commit: bool)

  function LastCommitted(rs: seq<Request>): nat {
    if rs == [] then 0
    else if rs[|rs| - 1].commit then rs[|rs| - 1].pos
    else LastCommitted(rs[..|rs| - 1])
  }

  /** In any run in which every position is less than 2^31 from the last one committed, every one is recovered. */
  method Track(rs: seq<Request>) returns (out: seq<nat>)
    requires forall i :: 0 <= i < |rs| ==> rs[i].pos < TWO64 && Within31(LastCommitted(rs[..i]), rs[i].pos)
    ensures |out| == |rs| && forall i :: 0 <= i < |rs| ==> out[i] == rs[i].pos
  {
    var state := new KeyState();
    out := [];
    var i := 0;
    while i < |rs|
      invariant i <= |rs| && fresh(state)
      invariant state.prev == LastCommitted(rs[..i]) < TWO64
      invariant |out| == i && forall j :: 0 <= j < i ==> out[j] == rs[j].pos
    {
      ReconstructExact(state.prev, rs[i].pos);
      var pos := state.RequestPos(rs[i].pos % TWO32, rs[i].commit);
      assert rs[..i + 1][..i] == rs[..i];
      out := out + [pos];
      i := i + 1;
    }
  }
}
