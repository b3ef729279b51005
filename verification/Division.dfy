/** Facts about Euclidean division that the solver does not find by itself. */
module Division {
  /** A quotient and a remainder in range are the quotient and the remainder. */
  lemma Quotient(x: int, g: int, q: int, r: int)
    requires 0 < g && x == q * g + r && 0 <= r < g
    ensures x / g == q && x % g == r
  {
    var d, m := x / g, x % g;
    assert (q - d) * g == m - r;
    assert q - d >= 1 ==> (q - d) * g >= g;
    assert q - d <= -1 ==> (q - d) * g <= -g;
  }

  lemma RemainderRange(x: int, g: int)
    requires 0 < g
    ensures 0 <= x % g < g
  {
  }

  lemma QuotientSign(x: int, g: int)
    requires 0 <= x && 0 < g
    ensures 0 <= x / g
  {
    var q := x / g;
    assert q <= -1 ==> q * g <= -1 * g;
  }

  /** Quotient of natural numbers. */
  function Over(x: nat, g: nat): (q: nat)
    requires 0 < g
    ensures q * g + x % g == x
  {
    QuotientSign(x, g);
    x / g
  }

  lemma MulMonotonic(x: int, y: int, g: int)
    requires x <= y && 0 <= g
    ensures x * g <= y * g
  {
  }

  /** Products with a common factor are ordered as the other factors. */
  lemma MulOrder(x: int, y: int, g: int)
    requires 0 <= g
    ensures (x <= y ==> x * g <= y * g) && (y <= x ==> y * g <= x * g)
  {
    if x <= y { MulMonotonic(x, y, g); }
    if y <= x { MulMonotonic(y, x, g); }
  }

  lemma Multiples(p: int, q: int, g: int)
    ensures (p + q) * g == p * g + q * g && (p - q) * g == p * g - q * g
  {
  }

  function Power2(k: nat): (p: nat)
    ensures p >= 1
  {
    if k == 0 then 1 else 2 * Power2(k - 1)
  }

  /** Halving before dividing is dividing by twice as much. */
  lemma HalveThenDivide(a: int, p: int)
    requires 0 < p
    ensures a / 2 / p == a / (2 * p)
  {
    var h := a / 2;
    var q, r := h / p, h % p;
    assert h == q * p + r;
    assert q * (2 * p) == 2 * (q * p);
    Quotient(a, 2 * p, q, 2 * r + a % 2);
  }

  /** Reducing a summand first does not change a sum modulo m. */
  lemma ReduceSummand(x: int, y: int, m: int)
    requires 0 < m
    ensures (x % m + y) % m == (x + y) % m
  {
    var q, z := x / m, x % m + y;
    assert x + y == q * m + z;
    assert (q + z / m) * m == q * m + z / m * m;
    Quotient(x + y, m, q + z / m, z % m);
  }

  lemma {:induction false} PowerSum(j: nat, k: nat)
    ensures Power2(j + k) == Power2(j) * Power2(k)
  {
    if j > 0 {
      PowerSum(j - 1, k);
      assert 2 * (Power2(j - 1) * Power2(k)) == 2 * Power2(j - 1) * Power2(k);
    }
  }

  lemma {:induction false} PowerOrder(j: nat, k: nat)
    requires j <= k
    ensures Power2(j) <= Power2(k)
    decreases k
  {
    if j < k { PowerOrder(j, k - 1); }
  }
}
