/** The number theory behind the Maglev permutation, and the table-size
    validator that guards it. */
module Primes {
  import opened Common

  /** Largest table size the configuration validator lets through. */
  const MAGLEV_MAX_TABLE_SIZE: nat := 5_000_011

  ghost predicate Divides(d: nat, n: nat)
    requires d > 0
  {
    n % d == 0
  }

  ghost predicate Prime(m: nat) {
    m >= 2 && forall d | 2 <= d < m :: !Divides(d, m)
  }

  /** Position `j` of the probe sequence that starts at `offset` and advances by `skip`. */
  function Slot(offset: nat, skip: nat, j: nat, m: nat): nat
    requires m > 0
  {
    (offset + j * skip) % m
  }

  lemma MultipleMod(x: nat, m: nat)
    requires m > 0
    ensures (x * m) % m == 0
  {
    if x > 0 {
      MultipleMod(x - 1, m);
      assert x * m == (x - 1) * m + m;
      AddModulus((x - 1) * m, m);
    }
  }

  lemma AddModulus(x: nat, m: nat)
    requires m > 0
    ensures (x + m) % m == x % m
  {
    var q := x / m;
    assert x == q * m + x % m;
    assert x + m == (q + 1) * m + x % m;
    UniqueQuotient(x + m, m, q + 1, x % m);
  }

  lemma UniqueQuotient(x: nat, m: nat, q: nat, r: nat)
    requires m > 0 && r < m && x == q * m + r
    ensures x / m == q && x % m == r
  {
    var q', r' := x / m, x % m;
    assert (q' - q) * m == r - r';
    SmallMultiple(q' - q, m);
  }

  /** A multiple of `m` strictly between `-m` and `m` is zero. */
  lemma SmallMultiple(x: int, m: int)
    requires -m < x * m < m
    ensures x == 0
  {
  }

  lemma NonNegativeFactor(x: int, m: nat)
    requires m > 0 && x * m >= 0
    ensures x >= 0
  {
  }

  /** Equal remainders differ by a multiple of the modulus. */
  lemma SameRemainder(a: nat, b: nat, m: nat)
    requires m > 0 && a <= b && a % m == b % m
    ensures (b - a) % m == 0
  {
    var qa, qb := a / m, b / m;
    assert a == qa * m + a % m && b == qb * m + b % m;
    assert b - a == (qb - qa) * m;
    NonNegativeFactor(qb - qa, m);
    MultipleMod(qb - qa, m);
  }

  lemma ScaledRemainder(m: int, a: int, b: int, q: int, r: int, k: int)
    requires m == q * a + r && a * b == k * m
    ensures r * b == (b - q * k) * m
  {
    calc {
      r * b;
      (m - q * a) * b;
      m * b - q * (a * b);
      m * b - q * (k * m);
      (b - q * k) * m;
    }
  }

  /** Euclid's lemma in the form needed here: below a prime, products never vanish. */
  lemma {:induction false} NoZeroProduct(m: nat, a: nat, b: nat)
    requires Prime(m) && 0 < a < m && 0 < b < m
    ensures (a * b) % m != 0
    decreases a
  {
    if a == 1 {
      assert a * b == b;
    } else if (a * b) % m == 0 {
      var q, r := m / a, m % a;
      assert !Divides(a, m);
      NoZeroProduct(m, r, b);
      var k := (a * b) / m;
      ScaledRemainder(m, a, b, q, r, k);
      NonNegativeFactor(b - q * k, m);
      MultipleMod(b - q * k, m);
    }
  }

  lemma SlotsDiffer(m: nat, offset: nat, skip: nat, i: nat, j: nat)
    requires Prime(m) && 0 < skip < m && i < j < m
    ensures Slot(offset, skip, i, m) != Slot(offset, skip, j, m)
  {
    if Slot(offset, skip, i, m) == Slot(offset, skip, j, m) {
      var a, b := offset + i * skip, offset + j * skip;
      assert b - a == (j - i) * skip && a <= b;
      SameRemainder(a, b, m);
      NoZeroProduct(m, j - i, skip);
    }
  }

  /** The slots visited by the first `k` probes. */
  ghost function Visited(m: nat, offset: nat, skip: nat, k: nat): set<nat>
    requires m > 0
  {
    set j | 0 <= j < k :: Slot(offset, skip, j, m)
  }

  lemma {:induction false} VisitedCount(m: nat, offset: nat, skip: nat, k: nat)
    requires Prime(m) && 0 < skip < m && k <= m
    ensures |Visited(m, offset, skip, k)| == k
  {
    if k > 0 {
      VisitedCount(m, offset, skip, k - 1);
      var last := Slot(offset, skip, k - 1, m);
      forall i | 0 <= i < k - 1 ensures Slot(offset, skip, i, m) != last {
        SlotsDiffer(m, offset, skip, i, k - 1);
      }
      assert Visited(m, offset, skip, k) == Visited(m, offset, skip, k - 1) + {last};
    }
  }

  ghost function Below(m: nat): (r: set<nat>)
    ensures forall x: nat :: x in r <==> x < m
    ensures |r| == m
  {
    if m == 0 then {} else Below(m - 1) + {m - 1}
  }

  lemma {:induction false} FullSubset<T>(a: set<T>, b: set<T>)
    requires a <= b && |a| == |b|
    ensures a == b
  {
    if x :| x in b && x !in a {
      SubsetCount(a + {x}, b);
    }
  }

  lemma {:induction false} SubsetCount<T>(a: set<T>, b: set<T>)
    requires a <= b
    ensures |a| <= |b|
  {
    if a != {} {
      var x :| x in a;
      SubsetCount(a - {x}, b - {x});
    }
  }

  ghost predicate Reaches(m: nat, offset: nat, skip: nat, c: nat)
    requires m > 0
  {
    exists j: nat :: j < m && Slot(offset, skip, j, m) == c
  }

  /** For a prime table size every probe sequence reaches every slot within one lap. */
  lemma ProbesCover(m: nat, offset: nat, skip: nat, c: nat)
    requires Prime(m) && 0 < skip < m && c < m
    ensures Reaches(m, offset, skip, c)
  {
    VisitedCount(m, offset, skip, m);
    FullSubset(Visited(m, offset, skip, m), Below(m));
    assert c in Visited(m, offset, skip, m);
  }

  ghost predicate EverySkipCovers(m: nat)
    requires m > 0
  {
    forall offset: nat, skip: nat, c: nat | 0 < skip < m && c < m ::
      Reaches(m, offset, skip, c)
  }

  lemma ModOfMultiple(j: nat, d: nat, m: nat)
    requires d > 0 && m > 0 && Divides(d, m)
    ensures ((j * d) % m) % d == 0
  {
    var q, r, e := (j * d) / m, (j * d) % m, m / d;
    assert m == e * d && j * d == q * m + r;
    assert r == j * d - q * (e * d) == (j - q * e) * d;
    NonNegativeFactor(j - q * e, d);
    MultipleMod(j - q * e, d);
  }

  lemma CompositeMisses(m: nat, d: nat)
    requires 2 <= d < m && Divides(d, m)
    ensures !Reaches(m, 0, d, 1)
  {
    forall j: nat | j < m ensures Slot(0, d, j, m) != 1 {
      ModOfMultiple(j, d, m);
    }
  }

  /** Primality is exactly what the claim loop needs: with a composite table size
      some host's probe sequence misses slots, and its search would never end. */
  lemma PrimeIffEverySkipCovers(m: nat)
    requires m >= 2
    ensures Prime(m) <==> EverySkipCovers(m)
  {
    if Prime(m) {
      forall offset: nat, skip: nat, c: nat | 0 < skip < m && c < m
        ensures Reaches(m, offset, skip, c)
      {
        ProbesCover(m, offset, skip, c);
      }
    } else {
      var d :| 2 <= d < m && Divides(d, m);
      CompositeMisses(m, d);
    }
  }

  lemma Cofactor(n: nat, e: nat) returns (f: nat)
    requires 2 <= e < n && Divides(e, n)
    ensures 2 <= f < n && n == e * f && Divides(f, n)
  {
    f := n / e;
    assert n == e * f;
    CofactorBounds(n, e, f);
    MultipleMod(e, f);
  }

  lemma CofactorBounds(n: nat, e: nat, f: nat)
    requires 2 <= e < n && n == e * f
    ensures 2 <= f < n
  {
    if f == 0 || f == 1 {
      assert false;
    }
    assert e * f >= 2 * f;
  }

  lemma SquareBound(e: nat, f: nat, d: nat)
    requires e * f < d * d
    ensures e < d || f < d
  {
    if e >= d && f >= d {
      MulMonotone(d, e, d, f);
    }
  }

  lemma MulMonotone(a: nat, b: nat, c: nat, d: nat)
    requires a <= b && c <= d
    ensures a * c <= b * d
  {
    assert a * c <= b * c <= b * d;
  }

  /** Trial division by 2 and then by odd candidates up to the square root. */
  method IsPrime(n: nat) returns (prime: bool)
    ensures prime <==> Prime(n)
  {
    if n < 2 {
      return false;
    }
    if n % 2 == 0 {
      assert Divides(2, n);
      return n == 2;
    }
    var d := 3;
    while d * d <= n
      invariant d >= 3 && d % 2 == 1
      invariant NoDivisorBelow(n, d)
      decreases n + 1 - d
    {
      MulMonotone(3, d, d, d);
      if n % d == 0 {
        assert Divides(d, n);
        return false;
      }
      OddStep(n, d);
      d := d + 2;
    }
    EnoughCandidates(n, d);
    return true;
  }

  ghost predicate NoDivisorBelow(n: nat, d: nat) {
    forall e | 2 <= e < d && e < n :: !Divides(e, n)
  }

  /** An odd number has no even divisor, so the next candidate is two further. */
  lemma OddStep(n: nat, d: nat)
    requires n % 2 == 1 && d >= 3 && d % 2 == 1 && n % d != 0 && NoDivisorBelow(n, d)
    ensures NoDivisorBelow(n, d + 2)
  {
    if Divides(d + 1, n) {
      EvenDivisor(d + 1, n);
    }
  }

  /** A divisor has a cofactor, and one of the two is below the square root. */
  lemma EnoughCandidates(n: nat, d: nat)
    requires n >= 2 && n < d * d && NoDivisorBelow(n, d)
    ensures Prime(n)
  {
    forall e | 2 <= e < n ensures !Divides(e, n) {
      if Divides(e, n) {
        var f := Cofactor(n, e);
        SquareBound(e, f, d);
      }
    }
  }

  lemma EvenDivisor(e: nat, n: nat)
    requires e > 0 && e % 2 == 0 && Divides(e, n)
    ensures n % 2 == 0
  {
    var q, h := n / e, e / 2;
    assert n == q * e == q * (2 * h) == (q * h) * 2;
  }

  datatype TableSizeError = TooLarge(size: nat) | NotPrime(size: nat)

  /** The MAGLEV part of cluster validation: over-max is checked before primality. */
  method ValidateTableSize(size: nat) returns (r: Result<(), TableSizeError>)
    ensures r.Ok? <==> size <= 5_000_011 && Prime(size)
    ensures r.Err? ==> r.error == if size > 5_000_011 then TooLarge(size) else NotPrime(size)
  {
    if size > MAGLEV_MAX_TABLE_SIZE {
      return Err(TooLarge(size));
    }
    var prime := IsPrime(size);
    return if prime then Ok(()) else Err(NotPrime(size));
  }
}
