/** Block copies, as memcpy and memmove do them. */
module Memory {
  method Copy<T>(src: array<T>, from: nat, dst: array<T>, to: nat, n: nat)
    requires from + n <= src.Length && to + n <= dst.Length
    modifies dst
    ensures forall k :: to <= k < to + n ==> dst[k] == old(src[from + k - to])
    ensures forall k :: 0 <= k < dst.Length && !(to <= k < to + n) ==> dst[k] == old(dst[k])
  {
    forall k | 0 <= k < n {
      dst[to + k] := src[from + k];
    }
  }

  /** Writes a string of values into an array. */
  method Store<T>(dst: array<T>, to: nat, s: seq<T>)
    requires to + |s| <= dst.Length
    modifies dst
    ensures forall k :: to <= k < to + |s| ==> dst[k] == s[k - to]
    ensures forall k :: 0 <= k < dst.Length && !(to <= k < to + |s|) ==> dst[k] == old(dst[k])
  {
    forall k | 0 <= k < |s| {
      dst[to + k] := s[k];
    }
  }

  /** Moves a stretch of an array within it; the stretches may overlap. */
  method Move<T>(a: array<T>, to: nat, from: nat, n: nat)
    requires from + n <= a.Length && to + n <= a.Length
    modifies a
    ensures forall k :: to <= k < to + n ==> a[k] == old(a[from + k - to])
    ensures forall k :: 0 <= k < a.Length && !(to <= k < to + n) ==> a[k] == old(a[k])
  {
    forall k | 0 <= k < n {
      a[to + k] := a[from + k];
    }
  }
}
