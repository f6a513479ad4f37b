/** Remainders by a variable modulus, kept apart so that no other proof multiplies. */
module Modular {

  lemma MulAtLeast(p: nat, d: int)
    requires d >= 1
    ensures p * d >= p
  {
    assert p * d == p + p * (d - 1);
  }

  /** Quotient and remainder are unique. */
  lemma Unique(x: int, p: nat, q: int, c: nat)
    requires x == p * q + c && c < p
    ensures x / p == q && x % p == c
  {
    var d := q - x / p;
    var e := x % p;
    assert p * d + c == e by {
      assert x == p * (x / p) + e;
      assert p * q == p * (x / p) + p * d;
    }
    if d >= 1 {
      MulAtLeast(p, d);
    } else if d <= -1 {
      MulAtLeast(p, -d);
    }
  }

  lemma Add(x: int, y: int, p: nat)
    requires p >= 1
    ensures (x + y) % p == if x % p + y % p < p then x % p + y % p else x % p + y % p - p
  {
    var q := x / p + y / p;
    assert x + y == p * q + (x % p + y % p) by {
      assert x == p * (x / p) + x % p && y == p * (y / p) + y % p;
    }
    if x % p + y % p < p {
      Unique(x + y, p, q, x % p + y % p);
    } else {
      assert p * (q + 1) == p * q + p;
      Unique(x + y, p, q + 1, x % p + y % p - p);
    }
  }

  lemma Small(x: nat, p: nat)
    requires x < p
    ensures x % p == x
  {
    Unique(x, p, 0, x);
  }

  /** Congruent numbers less than a modulus apart are equal. */
  lemma CongruentNear(x: nat, y: nat, p: nat)
    requires y <= x < y + p && x % p == y % p
    ensures x == y
  {
    Add(y, x - y, p);
    Small(x - y, p);
  }

  lemma Step(x: nat, p: nat)
    requires p >= 1
    ensures (x + 1) % p == if x % p + 1 == p then 0 else x % p + 1
  {
    if p == 1 {
      Unique(x + 1, 1, x + 1, 0);
    } else {
      Add(x, 1, p);
      Small(1, p);
    }
  }

  /** A register of twice the range, reduced further. */
  lemma Halve(x: nat, d: nat)
    requires d >= 1
    ensures (x % (2 * d)) % d == x % d
    ensures (x + d) % (2 * d) == if x % (2 * d) < d then x % (2 * d) + d else x % (2 * d) - d
    ensures x % (2 * d) == x % d || x % (2 * d) == x % d + d
  {
    var p := 2 * d;
    var q, c := x / p, x % p;
    assert x == p * q + c && p * q == d * (2 * q);
    if c < d {
      Unique(x, d, 2 * q, c);
      Small(c, d);
    } else {
      assert d * (2 * q + 1) == d * (2 * q) + d;
      Unique(x, d, 2 * q + 1, c - d);
      Unique(c, d, 1, c - d);
    }
    Add(x, d, p);
    Small(d, p);
  }
}
