// Facts about products and remainders that several proofs need.
module Arithmetic {

  lemma MulMonotone(a: int, b: int, g: nat)
    ensures a <= b ==> a * g <= b * g
  {
  }

  lemma SmallMultiple(k: int, d: nat)
    requires d > 0 && k * d < d && k * d + d > 0
    ensures k == 0
  {
  }

  lemma ModUnique(x: int, d: nat, q: int, r: int)
    requires d > 0 && x == q * d + r && 0 <= r < d
    ensures x % d == r && x / d == q
  {
    var q', r' := x / d, x % d;
    assert x == q' * d + r';
    assert (q' - q) * d == q' * d - q * d;
    SmallMultiple(q' - q, d);
  }

  lemma DoubleMod(y: int, b: nat)
    requires b > 0
    ensures (2 * y) % (2 * b) == 2 * (y % b)
  {
    var q, r := y / b, y % b;
    assert y == q * b + r;
    assert 2 * y == q * (2 * b) + 2 * r;
    ModUnique(2 * y, 2 * b, q, 2 * r);
  }

  lemma OneAfterMultiple(r: int, a: nat)
    requires a > 1 && r % a == 0
    ensures (r + 1) % a == 1
  {
    var q := r / a;
    assert r == q * a;
    ModUnique(r + 1, a, q, 1);
  }

  // A multiple less than one step above another multiple is not above it.
  lemma MultiplesApart(r: int, m: int, a: nat)
    requires a > 0 && r % a == 0 && m % a == 0 && r - a < m
    ensures r <= m
  {
    var i, j := r / a, m / a;
    assert r == i * a && m == j * a;
    assert (j + 1) * a == j * a + a;
    MulMonotone(j + 1, i, a);
    MulMonotone(i, j, a);
  }

  lemma CountFromSpan(n: nat, gap: nat, span: int)
    requires gap > 0 && n * gap <= span
    ensures n <= span / gap
  {
    var q := span / gap;
    assert span < q * gap + gap == (q + 1) * gap;
    MulMonotone(q + 1, n, gap);
  }
}
