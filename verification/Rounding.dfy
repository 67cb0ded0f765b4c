/** Casting a 64-bit integer to a 64-bit float: round to the nearest number with 53 significant bits,
    ties to the even one (section 4.3.1 of IEEE 754-2019). */
module Rounding {
  import opened Values

  const PRECISION := 0x20_0000_0000_0000 // two to the 53rd

  function Pow2(k: nat): (r: nat)
    ensures r > 0
  {
    if k == 0 then 1 else 2 * Pow2(k - 1)
  }

  /** How many low bits a magnitude has beyond 53 significant ones. */
  function Excess(n: nat): nat {
    if n < PRECISION then 0 else 1 + Excess(n / 2)
  }

  /** The nearest multiple of `u`; of two that are as near, the even multiple. */
  function Nearest(n: nat, u: nat): nat
    requires u > 0
  {
    var q, r := n / u, n % u;
    if 2 * r < u || (2 * r == u && q % 2 == 0) then q * u else (q + 1) * u
  }

  function RoundMagnitude(n: nat): nat {
    Nearest(n, Pow2(Excess(n)))
  }

  /** The value of an integer cast to a float. */
  function Round(i: int): real {
    if i >= 0 then RoundMagnitude(i) as real else -(RoundMagnitude(-i) as real)
  }

  // ---------------------------------------------------------------- rounding to multiples

  lemma Multiples(a: nat, b: nat, u: nat)
    ensures a <= b ==> a * u <= b * u
    ensures a < b ==> a * u + u <= b * u
  {
    if a < b {
      assert (a + 1) * u <= b * u;
    }
  }

  /** A number lies between its quotient's multiple and the next one. */
  lemma Quotient(n: nat, u: nat)
    requires u > 0
    ensures n == (n / u) * u + n % u && n % u < u
  {
  }

  lemma NearestBounds(n: nat, u: nat)
    requires u > 0
    ensures (n / u) * u <= Nearest(n, u) <= (n / u) * u + u
    ensures n % u == 0 ==> Nearest(n, u) == n
  {
    Quotient(n, u);
    assert (n / u + 1) * u == (n / u) * u + u;
  }

  /** No multiple of the unit is nearer. */
  lemma NearestIsNearest(n: nat, u: nat, k: nat)
    requires u > 0
    ensures var near, other := Nearest(n, u), k * u;
            (if n >= near then n - near else near - n) <= if n >= other then n - other else other - n
  {
    Quotient(n, u);
    assert (n / u + 1) * u == (n / u) * u + u;
    Multiples(k, n / u, u);
    Multiples(n / u, k, u);
    Multiples(n / u + 1, k, u);
  }

  lemma NearestMonotone(m: nat, n: nat, u: nat)
    requires u > 0 && m <= n
    ensures Nearest(m, u) <= Nearest(n, u)
  {
    Quotient(m, u);
    Quotient(n, u);
    Multiples(n / u, m / u, u);
    assert m / u <= n / u;
    if m / u < n / u {
      NearestBounds(m, u);
      NearestBounds(n, u);
      Multiples(m / u, n / u, u);
    }
  }

  // ---------------------------------------------------------------- significant bits

  /** A magnitude with `k > 0` excess bits lies between two powers of two. */
  lemma {:induction false} ExcessBounds(n: nat)
    ensures n < PRECISION * Pow2(Excess(n))
    ensures Excess(n) > 0 ==> n >= PRECISION * Pow2(Excess(n) - 1)
  {
    if n >= PRECISION {
      ExcessBounds(n / 2);
      var k := Excess(n / 2);
      assert Excess(n) == k + 1 && Pow2(k + 1) == 2 * Pow2(k);
      if k > 0 { assert Pow2(k) == 2 * Pow2(k - 1); }
    }
  }

  lemma {:induction false} ExcessMonotone(m: nat, n: nat)
    requires m <= n
    ensures Excess(m) <= Excess(n)
    decreases n
  {
    if m >= PRECISION { ExcessMonotone(m / 2, n / 2); }
  }

  lemma {:induction false} Pow2Monotone(j: nat, k: nat)
    requires j <= k
    ensures Pow2(j) <= Pow2(k)
    decreases k - j
  {
    if j < k { Pow2Monotone(j, k - 1); }
  }

  /** Rounding does not cross a multiple of the unit. */
  lemma StaysBelow(n: nat, u: nat, p: nat)
    requires u > 0 && n < p * u
    ensures Nearest(n, u) <= p * u
  {
    Quotient(n, u);
    Multiples(p, n / u, u);
    Multiples(n / u, p, u);
    NearestBounds(n, u);
  }

  lemma StaysAbove(n: nat, u: nat, p: nat)
    requires u > 0 && n >= p * u
    ensures Nearest(n, u) >= p * u
  {
    Quotient(n, u);
    Multiples(n / u, p, u);
    Multiples(p, n / u, u);
    NearestBounds(n, u);
  }

  lemma HalfAndDouble(k: nat)
    requires k > 0
    ensures PRECISION * Pow2(k - 1) == (PRECISION / 2) * Pow2(k)
  {
    assert Pow2(k) == 2 * Pow2(k - 1);
  }

  lemma MagnitudeMonotone(m: nat, n: nat)
    requires m <= n
    ensures RoundMagnitude(m) <= RoundMagnitude(n)
  {
    var j, k := Excess(m), Excess(n);
    ExcessMonotone(m, n);
    if j == k {
      NearestMonotone(m, n, Pow2(j));
    } else {
      ExcessBounds(m);
      ExcessBounds(n);
      StaysBelow(m, Pow2(j), PRECISION);
      HalfAndDouble(k);
      StaysAbove(n, Pow2(k), PRECISION / 2);
      Pow2Monotone(j, k - 1);
      Multiples(Pow2(j), Pow2(k - 1), PRECISION);
    }
  }

  function Distance(a: nat, b: nat): nat {
    if a >= b then a - b else b - a
  }

  /** Of two multiples that are as near, it is the even one. */
  lemma NearestTie(n: nat, u: nat, k: nat)
    requires u > 0 && k * u != Nearest(n, u) && Distance(n, k * u) == Distance(n, Nearest(n, u))
    ensures Nearest(n, u) % (2 * u) == 0
  {
    var q := n / u;
    Quotient(n, u);
    assert (q + 1) * u == q * u + u;
    Multiples(k, q, u);
    Multiples(q, k, u);
    Multiples(q + 1, k, u);
    if q % 2 == 0 { EvenMultiple(q / 2, u); } else { EvenMultiple((q + 1) / 2, u); }
  }

  lemma EvenMultiple(j: nat, u: nat)
    requires u > 0
    ensures 2 * u > 0 && ((2 * j) * u) % (2 * u) == 0
  {
    assert (2 * j) * u == j * (2 * u);
    MultipleOf(j, 2 * u);
  }

  lemma MultipleOf(j: nat, v: nat)
    requires v > 0
    ensures (j * v) % v == 0
  {
    Quotient(j * v, v);
    Multiples(j, (j * v) / v, v);
    Multiples((j * v) / v, j, v);
  }

  lemma {:induction false} Pow2Sum(j: nat, k: nat)
    ensures Pow2(j + k) == Pow2(j) * Pow2(k)
  {
    if j > 0 {
      Pow2Sum(j - 1, k);
      assert Pow2(j + k) == 2 * Pow2(j - 1 + k);
      assert Pow2(j) * Pow2(k) == (2 * Pow2(j - 1)) * Pow2(k) == 2 * (Pow2(j - 1) * Pow2(k));
    }
  }

  /** The cast of a magnitude has 53 significant bits; no number with 53 significant bits is nearer to the
      magnitude, and one that is as near leaves the cast an even last bit. */
  lemma CastIsNearest(n: nat, m: nat, e: nat)
    requires m < PRECISION
    ensures RoundMagnitude(n) <= PRECISION * Pow2(Excess(n)) && RoundMagnitude(n) % Pow2(Excess(n)) == 0
    ensures IsNearest(n, RoundMagnitude(n), m * Pow2(e), 2 * Pow2(Excess(n)))
  {
    hide Pow2, Nearest, IsNearest;
    var u := Pow2(Excess(n));
    ExcessBounds(n);
    StaysBelow(n, u, PRECISION);
    IsMultiple(n, u);
    if e >= Excess(n) {
      var k := SameUnit(m, e, Excess(n));
      NearestOfMultiples(n, u, k);
    } else {
      FewerBits(n, m, e);
    }
  }

  /** `near` is at least as near to `n` as `other`, and a multiple of `v` if it is just as near. */
  predicate IsNearest(n: nat, near: nat, other: nat, v: nat)
    requires v > 0
  {
    && Distance(n, near) <= Distance(n, other)
    && (Distance(n, near) == Distance(n, other) && near != other ==> near % v == 0)
  }

  lemma SameUnit(m: nat, e: nat, x: nat) returns (k: nat)
    requires e >= x
    ensures m * Pow2(e) == k * Pow2(x)
  {
    hide Pow2;
    Pow2Sum(e - x, x);
    k := m * Pow2(e - x);
    assert m * (Pow2(e - x) * Pow2(x)) == k * Pow2(x);
  }

  lemma NearestOfMultiples(n: nat, u: nat, k: nat)
    requires u > 0
    ensures IsNearest(n, Nearest(n, u), k * u, 2 * u)
  {
    hide Nearest;
    NearestIsNearest(n, u, k);
    if k * u != Nearest(n, u) && Distance(n, k * u) == Distance(n, Nearest(n, u)) { NearestTie(n, u, k); }
  }

  /** A number with 53 bits of a smaller unit is below the magnitude, and below a multiple in between. */
  lemma FewerBits(n: nat, m: nat, e: nat)
    requires m < PRECISION && e < Excess(n)
    ensures IsNearest(n, RoundMagnitude(n), m * Pow2(e), 2 * Pow2(Excess(n)))
  {
    hide Pow2, Nearest;
    var x := Excess(n);
    var h := (PRECISION / 2) * Pow2(x);
    ExcessBounds(n);
    HalfAndDouble(x);
    NearestIsNearest(n, Pow2(x), PRECISION / 2);
    Pow2Monotone(e, x - 1);
    Multiples(m, PRECISION, Pow2(e));
    Multiples(Pow2(e), Pow2(x - 1), PRECISION);
    assert m * Pow2(e) < h <= n;
  }

  lemma IsMultiple(n: nat, u: nat)
    requires u > 0
    ensures Nearest(n, u) % u == 0
  {
    MultipleOf(n / u, u);
    MultipleOf(n / u + 1, u);
  }

  /** The cast keeps the order of all integers, although it is exact only up to two to the 53rd. */
  lemma CastIsMonotone()
    ensures Monotone(Round)
    ensures forall i: int {:trigger Round(i)} :: -PRECISION <= i <= PRECISION ==> Round(i) == i as real
    ensures Round(PRECISION + 1) == Round(PRECISION)
  {
    hide RoundMagnitude;
    forall a: int, b: int {:trigger Round(a), Round(b)} | a <= b ensures Round(a) <= Round(b) {
      if a >= 0 { MagnitudeMonotone(a, b); }
      else if b < 0 { MagnitudeMonotone(-b, -a); }
    }
    forall i: int {:trigger Round(i)} | -PRECISION <= i <= PRECISION ensures Round(i) == i as real {
      ExactMagnitude(if i >= 0 then i else -i);
    }
    NextIsLost();
    ExactMagnitude(PRECISION);
  }

  lemma NextIsLost()
    ensures RoundMagnitude(PRECISION + 1) == PRECISION
  {
    assert (PRECISION + 1) / 2 == PRECISION / 2 && Excess(PRECISION / 2) == 0;
    assert Excess(PRECISION + 1) == 1;
    assert Pow2(1) == 2 by { assert Pow2(0) == 1; }
  }

  lemma ExactMagnitude(n: nat)
    requires n <= PRECISION
    ensures RoundMagnitude(n) == n
  {
    if n < PRECISION {
      NearestBounds(n, 1);
    } else {
      assert Excess(PRECISION / 2) == 0;
      assert Excess(n) == 1;
      assert Pow2(1) == 2 by { assert Pow2(0) == 1; }
      NearestBounds(n, 2);
    }
  }

  /** Both sides of 0 round alike. */
  lemma CastIsSymmetric(i: int)
    ensures Round(-i) == -Round(i) && (i >= 0 ==> Round(i) == RoundMagnitude(i) as real)
  {
    hide RoundMagnitude;
    ExactMagnitude(0);
  }

  /** With the real cast, the order of values is transitive. */
  lemma ValuesInOrder(a: Value, b: Value, c: Value)
    requires Compare(Round, a, b) != Greater && Compare(Round, b, c) != Greater
    ensures Compare(Round, a, c) != Greater
    ensures Compare(Round, a, c) == Equal ==> Eq(a, b) && Eq(b, c)
  {
    CastIsMonotone();
    CompareTransitive(Round, a, b, c);
  }
}
