/**
 * The Gray code of the pointers that cross the clock domains, on `n` bits:
 * `(x >> 1) ^ x`.
 */
module GrayCode {
  import opened Bits

  function Gray(x: nat, n: nat): (g: seq<bool>)
    ensures |g| == n
  {
    var b := ToBits(x, n);
    seq(n, i requires 0 <= i < n => b[i] != (i + 1 < n && b[i + 1]))
  }

  /** `x + 1` in an `n`-bit register. */
  function Succ(x: nat, n: nat): (y: nat)
    requires x < Pow2(n)
    ensures y < Pow2(n)
  {
    if x + 1 == Pow2(n) then 0 else x + 1
  }

  /** `x` moved by half the range of an `n`-bit register. */
  function HalfTurn(x: nat, n: nat): (y: nat)
    requires n >= 1 && x < Pow2(n)
    ensures y < Pow2(n)
  {
    if x < Pow2(n - 1) then x + Pow2(n - 1) else x - Pow2(n - 1)
  }

  /** A Gray word with its two top bits inverted: `{~g[n-1:n-2], g[n-3:0]}`. */
  function InvertTopTwo(g: seq<bool>): (f: seq<bool>)
    requires |g| >= 2
    ensures |f| == |g|
  {
    g[..|g| - 2] + [!g[|g| - 2], !g[|g| - 1]]
  }

  /** Sampling a word while it changes may take each bit from either side of the change. */
  ghost predicate IsMix(m: seq<bool>, a: seq<bool>, b: seq<bool>) {
    |m| == |a| == |b| && forall i :: 0 <= i < |m| ==> m[i] == a[i] || m[i] == b[i]
  }

  lemma GrayTail(x: nat, n: nat)
    requires n >= 1
    ensures Gray(x, n)[1..] == Gray(x / 2, n - 1)
    ensures Gray(x, n)[0] == ((x % 2 == 1) != (n > 1 && (x / 2) % 2 == 1))
  {
    assert ToBits(x, n)[1..] == ToBits(x / 2, n - 1);
  }

  lemma {:induction false} GrayInjective(x: nat, y: nat, n: nat)
    requires x < Pow2(n) && y < Pow2(n) && Gray(x, n) == Gray(y, n)
    ensures x == y
  {
    if n > 0 {
      GrayTail(x, n);
      GrayTail(y, n);
      GrayInjective(x / 2, y / 2, n - 1);
    }
  }

  /** Consecutive Gray words, the wrap to zero included, differ in exactly one bit. */
  lemma {:induction false} GraySuccFlipsOneBit(x: nat, n: nat) returns (k: nat)
    requires n >= 1 && x < Pow2(n)
    ensures k < n && Gray(Succ(x, n), n) == Gray(x, n)[k := !Gray(x, n)[k]]
  {
    var y := Succ(x, n);
    GrayTail(x, n);
    GrayTail(y, n);
    if x % 2 == 0 || n == 1 {
      k := 0;
      if n > 1 {
        EvenSucc(x, n);
      }
      FlipHead(Gray(x, n), Gray(y, n));
    } else {
      var j := GraySuccFlipsOneBit(x / 2, n - 1);
      k := j + 1;
      OddSucc(x, n);
      FlipTail(Gray(x, n), Gray(y, n), j);
    }
  }

  lemma OddSucc(x: nat, n: nat)
    requires n > 1 && x < Pow2(n) && x % 2 == 1
    ensures Succ(x, n) / 2 == Succ(x / 2, n - 1) && Succ(x, n) % 2 == 0
  {
    assert Pow2(n) == 2 * Pow2(n - 1);
  }

  lemma EvenSucc(x: nat, n: nat)
    requires n > 1 && x < Pow2(n) && x % 2 == 0
    ensures Succ(x, n) / 2 == x / 2 && Succ(x, n) % 2 == 1
  {
    assert Pow2(n) == 2 * Pow2(n - 1);
  }

  lemma FlipHead(g: seq<bool>, f: seq<bool>)
    requires |g| == |f| >= 1 && f[0] == !g[0] && f[1..] == g[1..]
    ensures f == g[0 := !g[0]]
  {
    assert f == [f[0]] + f[1..];
  }

  lemma FlipTail(g: seq<bool>, f: seq<bool>, j: nat)
    requires |g| == |f| && j + 1 < |g| && f[0] == g[0] && f[1..] == g[1..][j := !g[1..][j]]
    ensures f == g[j + 1 := !g[j + 1]]
  {
    assert f == [f[0]] + f[1..];
  }

  /** Any per-bit mix of two consecutive Gray words is one of the two. */
  lemma MixOfSuccessorsIsOneOfThem(m: seq<bool>, x: nat, n: nat)
    requires n >= 1 && x < Pow2(n)
    requires IsMix(m, Gray(x, n), Gray(Succ(x, n), n))
    ensures m == Gray(x, n) || m == Gray(Succ(x, n), n)
  {
    var k := GraySuccFlipsOneBit(x, n);
    if m[k] == Gray(x, n)[k] {
      assert m == Gray(x, n);
    } else {
      assert m == Gray(Succ(x, n), n);
    }
  }

  lemma HalfTurnHalves(x: nat, n: nat)
    requires n >= 2 && x < Pow2(n)
    ensures x / 2 < Pow2(n - 1)
    ensures HalfTurn(x, n) / 2 == HalfTurn(x / 2, n - 1)
    ensures HalfTurn(x, n) % 2 == x % 2
  {
    assert Pow2(n) == 2 * Pow2(n - 1) && Pow2(n - 1) == 2 * Pow2(n - 2);
  }

  lemma {:induction false} HalfTurnInvertsTopTwo(x: nat, n: nat)
    requires n >= 2 && x < Pow2(n)
    ensures Gray(HalfTurn(x, n), n) == InvertTopTwo(Gray(x, n))
  {
    var y := HalfTurn(x, n);
    GrayTail(x, n);
    GrayTail(y, n);
    HalfTurnHalves(x, n);
    if n == 2 {
      HalfTurnOfTwoBits(x);
    } else {
      HalfTurnHalves(x / 2, n - 1);
      HalfTurnInvertsTopTwo(x / 2, n - 1);
      InvertTail(Gray(x, n), Gray(y, n));
    }
  }

  lemma InvertTail(g: seq<bool>, f: seq<bool>)
    requires |g| == |f| >= 3 && f[0] == g[0] && f[1..] == InvertTopTwo(g[1..])
    ensures f == InvertTopTwo(g)
  {
    forall i | 0 <= i < |f| ensures f[i] == InvertTopTwo(g)[i] {
      if i > 0 {
        assert f[i] == f[1..][i - 1];
      }
    }
  }

  lemma HalfTurnOfTwoBits(x: nat)
    requires x < Pow2(2)
    ensures Gray(HalfTurn(x, 2), 2) == InvertTopTwo(Gray(x, 2))
  {
    var y := HalfTurn(x, 2);
    GrayTail(x, 2);
    GrayTail(y, 2);
    GrayTail(x / 2, 1);
    GrayTail(y / 2, 1);
    assert Pow2(2) == 4 && Pow2(1) == 2;
    assert Gray(x, 2) == [Gray(x, 2)[0], Gray(x / 2, 1)[0]];
    assert Gray(y, 2) == [Gray(y, 2)[0], Gray(y / 2, 1)[0]];
  }

  /** The Gray full test holds exactly when the binary pointers are half a range apart. */
  lemma FullTestExact(w: nat, r: nat, n: nat)
    requires n >= 2 && w < Pow2(n) && r < Pow2(n)
    ensures Gray(w, n) == InvertTopTwo(Gray(r, n)) <==> w == HalfTurn(r, n)
  {
    HalfTurnInvertsTopTwo(r, n);
    if Gray(w, n) == InvertTopTwo(Gray(r, n)) {
      GrayInjective(w, HalfTurn(r, n), n);
    }
  }

  /** The Gray empty test holds exactly when the binary pointers are equal. */
  lemma EmptyTestExact(w: nat, r: nat, n: nat)
    requires w < Pow2(n) && r < Pow2(n)
    ensures Gray(w, n) == Gray(r, n) <==> w == r
  {
    if Gray(w, n) == Gray(r, n) {
      GrayInjective(w, r, n);
    }
  }
}
