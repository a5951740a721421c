// Products and quotients of variables, in the small steps the solver needs.
module Arithmetic {
  function Min(a: int, b: int): int {
    if a <= b then a else b
  }

  function Max(a: int, b: int): int {
    if a >= b then a else b
  }

  function Pow256(n: nat): (p: nat)
    ensures p >= 1
  {
    if n == 0 then 1 else 256 * Pow256(n - 1)
  }

  lemma MulMonotone(a: int, b: int, factor: nat)
    requires a <= b
    ensures a * factor <= b * factor
  {
    assert (b - a) * factor >= 0;
  }

  lemma MulCancel(a: int, b: int, factor: nat)
    requires a * factor < b * factor
    ensures a < b
  {
    if b <= a {
      MulMonotone(b, a, factor);
    }
  }

  lemma DivMod(t: nat, d: nat)
    requires d > 0
    ensures t == t / d * d + t % d && t % d < d && t % d <= t
  {
    MulMonotone(0, t / d, d);
  }

  function Quotient(t: nat, d: nat): nat
    requires d > 0
  {
    DivMod(t, d);
    t / d
  }

  lemma DivideIntoRange(t: nat, d: nat, lo: nat, hi: nat)
    requires d > 0 && lo * d <= t < hi * d
    ensures lo <= t / d < hi
  {
    var q := t / d;
    DivMod(t, d);
    assert (q + 1) * d == q * d + d;
    MulCancel(lo, q + 1, d);
    MulCancel(q, hi, d);
  }

  lemma QuotientIs(t: nat, d: nat, q: nat)
    requires d > 0 && q * d <= t < q * d + d
    ensures t / d == q
  {
    assert (q + 1) * d == q * d + d;
    DivideIntoRange(t, d, q, q + 1);
  }

  lemma DivideTwice(t: nat, d: nat, e: nat)
    requires d > 0 && e > 0
    ensures d * e > 0 && t / d / e == t / (d * e)
  {
    var q, r := t / d / e, t / d % e;
    DivMod(t, d);
    DivMod(t / d, e);
    assert d * e > 0;
    assert (q * e + r) * d == q * (d * e) + r * d;
    MulMonotone(r + 1, e, d);
    assert (r + 1) * d == r * d + d;
    QuotientIs(t, d * e, q);
  }

  lemma RemainderIs(t: nat, d: nat, q: nat, r: nat)
    requires t == q * d + r && r < d
    ensures t % d == r
  {
    QuotientIs(t, d, q);
    DivMod(t, d);
  }

  lemma Distribute(a: nat, b: nat, c: nat)
    ensures (a + b) * c == a * c + b * c
  {
  }

  lemma Reassociate(a: nat, b: nat, c: nat)
    ensures (a * b) * c == a * (b * c)
  {
  }

  lemma Below(a: nat, b: nat, p: nat, f: nat)
    requires a < p && b < f
    ensures a * f + b < p * f
  {
    MulMonotone(a + 1, p, f);
    Distribute(a, 1, f);
  }

  // Shifting a number by a factor shifts its remainder.
  lemma ShiftRemainder(t: nat, p: nat, f: nat, add: nat)
    requires p > 0 && f > 0 && add < f
    ensures p * f > 0 && (t * f + add) % (p * f) == t % p * f + add
  {
    MulMonotone(1, p, f);
    DivMod(t, p);
    Distribute(t / p * p, t % p, f);
    Reassociate(t / p, p, f);
    Below(t % p, add, p, f);
    RemainderIs(t * f + add, p * f, t / p, t % p * f + add);
  }

  lemma RemainderOfRemainder(t: nat, d: nat, e: nat)
    requires d > 0 && e > 0
    ensures d * e > 0 && t % (d * e) % d == t % d
  {
    MulMonotone(1, d, e);
    DivMod(t, d * e);
    var m, k := t % (d * e), t / (d * e);
    DivMod(m, d);
    Reassociate(k, e, d);
    assert d * e == e * d;
    Distribute(k * e, m / d, d);
    RemainderIs(t, d, k * e + m / d, m % d);
  }

  // Shifting a number up by f and adding below it, under a mask that leaves room.
  lemma ShiftUnderMask(t: nat, p: nat, f: nat, e: nat, add: nat, low: nat, mask: nat)
    requires p > 0 && f > 0 && e > 0 && add < f && low > 0 && mask > 0
    requires low == p * f && mask == low * e
    ensures (t * f + add) % mask % low == t % p * f + add
  {
    ShiftRemainder(t, p, f, add);
    RemainderOfRemainder(t * f + add, low, e);
  }

  // Splitting a remainder into its high and low part.
  lemma SplitRemainder(t: nat, high: nat, low: nat, h: nat, l: nat)
    requires high > 0 && low > 0 && h < high && l < low
    requires high * low > 0 && t % (high * low) == h * low + l
    ensures t / low % high == h && t % low == l
  {
    DivMod(t, high * low);
    var q := t / (high * low);
    Reassociate(q, high, low);
    Distribute(q * high, h, low);
    QuotientIs(t, low, q * high + h);
    RemainderIs(t, low, q * high + h, l);
    RemainderIs(q * high + h, high, q, h);
  }
}
