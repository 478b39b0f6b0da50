/** Wrapping sequence numbers: serial comparison of RFC 1982 (section 3.2), as used by RFC 4960
    (section 1.6), for numbers below the modulus `m`. */
module SeqNum {

  const MOD16: nat := 0x1_0000
  const MOD32: nat := 0x1_0000_0000

  predicate Lt(m: nat, a: int, b: int) {
    a != b && ((a < b && b - a < m / 2) || (a > b && a - b > m / 2))
  }

  predicate Gt(m: nat, a: int, b: int) {
    a != b && ((a < b && b - a > m / 2) || (a > b && a - b < m / 2))
  }

  predicate Ge(m: nat, a: int, b: int) {
    a == b || Gt(m, a, b)
  }

  function Add(m: nat, a: int, b: int): int
    requires m > 0
  {
    (a + b) % m
  }

  /** The sum as the reorder queue computes it. Two 16 bit numbers are added as `int`, so their sum is not reduced;
      two of 32 bits are. */
  function Sum(m: nat, reduces: bool, a: int, b: int): int
    requires m > 0
  {
    var s := a % m + b % m;
    if reduces then s % m else s
  }

  lemma MulMagnitude(m: int, d: int)
    requires m > 0
    ensures d >= 1 ==> m * d >= m
    ensures d <= -1 ==> m * d <= -m
  {}

  /** Quotient and remainder are unique. */
  lemma DivModUnique(m: int, q: int, r: int)
    requires 0 <= r < m
    ensures (m * q + r) % m == r && (m * q + r) / m == q
  {
    var x := m * q + r;
    var d := x / m - q;
    assert x == m * (x / m) + x % m;
    assert m * d == r - x % m by { assert m * (x / m) - m * q == m * (x / m - q); }
    MulMagnitude(m, d);
  }

  /** Moving a number by less than the modulus moves its residue by the same amount, up to one wrap. */
  lemma ModStep(m: int, x: int, d: int)
    requires m > 0
    ensures 0 <= x % m + d < m ==> (x + d) % m == x % m + d
    ensures m <= x % m + d < 2 * m ==> (x + d) % m == x % m + d - m
    ensures -m <= x % m + d < 0 ==> (x + d) % m == x % m + d + m
  {
    var q, r := x / m, x % m + d;
    assert x + d == m * q + r;
    if 0 <= r < m {
      DivModUnique(m, q, r);
    } else if m <= r < 2 * m {
      assert m * q + r == m * (q + 1) + (r - m);
      DivModUnique(m, q + 1, r - m);
    } else if -m <= r < 0 {
      assert m * q + r == m * (q - 1) + (r + m);
      DivModUnique(m, q - 1, r + m);
    }
  }

  /** Adding to a residue gives the residue of the sum. */
  lemma AddResidue(m: nat, x: int, d: int)
    requires m > 0
    ensures Add(m, x % m, d) == (x + d) % m
  {
    var y, q := x % m + d, x / m;
    assert x + d == m * q + y;
    assert m * q + y == m * (q + y / m) + y % m;
    DivModUnique(m, q + y / m, y % m);
  }

  /** The sum always has the right residue, and is that residue iff it is reduced or does not reach the modulus. */
  lemma {:induction false} SumIs(m: nat, reduces: bool, a: int, b: int)
    requires m > 0
    ensures Sum(m, reduces, a, b) % m == (a + b) % m
    ensures Sum(m, reduces, a, b) == (a + b) % m <==> reduces || a % m + b % m < m
  {
    AddResidue(m, a, b);
    AddResidue(m, b, a % m);
    DivModUnique(m, 0, (a + b) % m);
    if a % m + b % m < m { DivModUnique(m, 0, a % m + b % m); }
  }

  /** Serial comparison of two residues orders the numbers they stand for, as long as
      these are less than half the modulus apart. */
  lemma {:induction false} SerialOrder(m: nat, x: int, y: int)
    requires m > 0 && m % 2 == 0
    requires -(m / 2) < y - x < m / 2
    ensures Lt(m, x % m, y % m) <==> x < y
    ensures Gt(m, x % m, y % m) <==> x > y
    ensures x % m == y % m <==> x == y
  {
    ModStep(m, x, y - x);
  }

  /** At a distance of exactly half the modulus neither comparison holds. */
  lemma {:induction false} SerialOrderUndefined(m: nat, x: int)
    requires m > 0 && m % 2 == 0
    ensures !Lt(m, x % m, (x + m / 2) % m) && !Gt(m, x % m, (x + m / 2) % m)
    ensures x % m != (x + m / 2) % m
  {
    ModStep(m, x, m / 2);
  }

  /** Reducing first modulo a multiple of `n` does not change the residue modulo `n`. */
  lemma {:induction false} ModMod(x: int, m: int, n: int)
    requires n > 0 && m > 0 && m % n == 0
    ensures (x % m) % n == x % n
  {
    var k, q := m / n, x / m;
    assert m == n * k && x == m * q + x % m;
    var y := x % m;
    calc {
      x;
      (n * k) * q + y;
      n * (k * q) + (n * (y / n) + y % n);
      n * (k * q + y / n) + y % n;
    }
    DivModUnique(n, k * q + y / n, y % n);
  }

  /** Numbers less than `n` apart occupy different residues. */
  lemma {:induction false} ModDistinct(n: int, x: int, y: int)
    requires n > 0 && x % n == y % n
    requires -n < y - x < n
    ensures x == y
  {
    ModStep(n, x, y - x);
  }

  /** Numbers that differ by less than the modulus, but differ, have different residues. */
  lemma ModDistinctWitness(n: int, x: int, y: int)
    requires n > 0 && x != y && -n < y - x < n
    ensures x % n != y % n
  {
    if x % n == y % n { ModDistinct(n, x, y); }
  }

  /** In a ring of `n` slots cut into chunks of `c`: a chunk that starts at a multiple `y` of `c` does not
      wrap, and does not meet the slot of any of the `n - c` numbers before it. */
  lemma ChunkInRing(n: int, c: int, y: int)
    requires c > 0 && n > 0 && n % c == 0 && y % c == 0
    ensures 0 <= y % n && y % n + c <= n
  {
    ModMod(y, n, c);
    var k, m := n / c, (y % n) / c;
    assert n == c * k && y % n == c * m;
    MulMagnitude(c, k - m);
    assert c * (k - m) == c * k - c * m;
  }

  lemma ChunkApart(n: int, c: int, x: int, y: int)
    requires c > 0 && n > 0 && n % c == 0 && y % c == 0
    requires x < y && y + c <= x + n
    ensures !(y % n <= x % n < y % n + c)
  {
    ChunkInRing(n, c, y);
    var j := x % n - y % n;
    if 0 <= j < c {
      ModStep(n, y, j);
      ModDistinctWitness(n, x, y + j);
    }
  }

  /** Rounding down to a multiple of `c`. */
  function RoundDown(c: nat, x: nat): (r: nat)
    requires c > 0
    ensures r % c == 0 && r <= x < r + c
  {
    DivModUnique(c, x / c, 0);
    assert c * (x / c) == x / c * c;
    x / c * c
  }

  lemma DividesTransitive(x: int, m: int, n: int)
    requires m > 0 && n > 0 && x % m == 0 && m % n == 0
    ensures x % n == 0
  {
    ModMod(x, m, n);
  }

  /** Sums and differences of multiples of `c` are multiples of `c`. */
  lemma MultiplesAdd(c: int, x: int, y: int)
    requires c > 0 && x % c == 0 && y % c == 0
    ensures (x + y) % c == 0 && (x - y) % c == 0
  {
    var k, m := x / c, y / c;
    assert x == c * k && y == c * m;
    assert x + y == c * (k + m) + 0 && x - y == c * (k - m) + 0;
    DivModUnique(c, k + m, 0);
    DivModUnique(c, k - m, 0);
  }

  lemma MultipleBound(c: int, x: int, n: int)
    requires c > 0 && x % c == 0 && n % c == 0 && x < n
    ensures x + c <= n
  {
    var k, m := x / c, n / c;
    assert x == c * k && n == c * m;
    MulMagnitude(c, m - k);
    assert c * (m - k) == c * m - c * k;
  }

  lemma MultipleAtLeast(c: int, n: int)
    requires c > 0 && n > 0 && n % c == 0
    ensures n >= c
  {
    DivModUnique(c, 0, 0);
    MultipleBound(c, 0, n);
  }
}
