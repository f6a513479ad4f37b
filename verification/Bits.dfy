/** Fixed-width binary numbers as bit sequences, least significant bit first. */
module Bits {
  import Modular

  function Pow2(n: nat): (p: nat)
    ensures p >= 1
  {
    if n == 0 then 1 else 2 * Pow2(n - 1)
  }

  /** The low `n` bits of `x`; higher bits are cut off, as in an `n`-bit register. */
  function ToBits(x: nat, n: nat): (b: seq<bool>)
    ensures |b| == n
  {
    if n == 0 then [] else [x % 2 == 1] + ToBits(x / 2, n - 1)
  }

  function ToNat(b: seq<bool>): nat {
    if b == [] then 0 else (if b[0] then 1 else 0) + 2 * ToNat(b[1..])
  }

  lemma {:induction false} ToNatInvertsToBits(x: nat, n: nat)
    requires x < Pow2(n)
    ensures ToNat(ToBits(x, n)) == x
  {
    if n > 0 {
      ToNatInvertsToBits(x / 2, n - 1);
      assert ToBits(x, n)[1..] == ToBits(x / 2, n - 1);
    }
  }

  lemma {:induction false} ToBitsInvertsToNat(b: seq<bool>)
    ensures ToNat(b) < Pow2(|b|)
    ensures ToBits(ToNat(b), |b|) == b
  {
    if b != [] {
      ToBitsInvertsToNat(b[1..]);
      assert ToNat(b) / 2 == ToNat(b[1..]);
      assert b == [b[0]] + b[1..];
    }
  }

  /** Bitwise `x & y`. */
  function And(x: nat, y: nat): nat
    decreases x
  {
    if x == 0 || y == 0 then 0
    else (if x % 2 == 1 && y % 2 == 1 then 1 else 0) + 2 * And(x / 2, y / 2)
  }

  /** Bitwise `x ^ y`. */
  function Xor(x: nat, y: nat): nat
    decreases x + y
  {
    if x == 0 then y else if y == 0 then x
    else (if x % 2 != y % 2 then 1 else 0) + 2 * Xor(x / 2, y / 2)
  }

  /** Masking with `2^k - 1` is the remainder by `2^k`. */
  lemma {:induction false} MaskIsRemainder(x: nat, k: nat)
    ensures And(x, Pow2(k) - 1) == x % Pow2(k)
  {
    if x == 0 {
      Modular.Small(0, Pow2(k));
    } else if k == 0 {
      Modular.Unique(x, 1, x, 0);
    } else {
      MaskIsRemainder(x / 2, k - 1);
      assert (Pow2(k) - 1) / 2 == Pow2(k - 1) - 1 && (Pow2(k) - 1) % 2 == 1;
      RemainderByEvenPower(x, Pow2(k - 1));
    }
  }

  lemma RemainderByEvenPower(x: nat, h: nat)
    requires h >= 1
    ensures x % (2 * h) == x % 2 + 2 * ((x / 2) % h)
  {
    var q := (x / 2) / h;
    assert x / 2 == h * q + (x / 2) % h;
    assert (2 * h) * q == 2 * (h * q);
    Modular.Unique(x, 2 * h, q, x % 2 + 2 * ((x / 2) % h));
  }

  /** Toggling bit `k` of a number below `2^(k+1)` moves it by half the range. */
  lemma {:induction false} XorTopBit(x: nat, k: nat)
    requires x < Pow2(k + 1)
    ensures Xor(x, Pow2(k)) == if x < Pow2(k) then x + Pow2(k) else x - Pow2(k)
  {
    if x != 0 && k > 0 {
      XorTopBit(x / 2, k - 1);
      assert Pow2(k) / 2 == Pow2(k - 1) && Pow2(k) % 2 == 0;
    }
  }

  /** The test `size & (size - 1) == 0` accepts exactly the powers of two. */
  lemma {:induction false} PowerOfTwoTest(size: nat) returns (k: nat)
    requires size != 0 && And(size, size - 1) == 0
    ensures size == Pow2(k)
  {
    k := 0;
    if size % 2 == 1 {
      assert (size - 1) / 2 == size / 2;
      AndSelf(size / 2);
      assert size == 1;
    } else {
      assert (size - 1) / 2 == size / 2 - 1;
      var j := PowerOfTwoTest(size / 2);
      k := j + 1;
    }
  }

  lemma {:induction false} AndSelf(x: nat)
    ensures And(x, x) == x
  {
    if x != 0 {
      AndSelf(x / 2);
    }
  }
}
