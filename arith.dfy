/** Facts about powers of two and Euclidean division shared by the other modules. */
module Arith {
  function Pow2(n: nat): (r: nat)
    ensures r >= 1
  {
    if n == 0 then 1 else 2 * Pow2(n - 1)
  }

  lemma {:induction false} Pow2Add(a: nat, b: nat)
    ensures Pow2(a + b) == Pow2(a) * Pow2(b)
  {
    if a > 0 {
      Pow2Add(a - 1, b);
      assert Pow2(a + b) == 2 * Pow2(a - 1 + b);
    }
  }

  /** Euclidean division is unique: `x == q*L + r` with `0 <= r < L` fixes `x / L` and `x % L`. */
  lemma ModUnique(x: int, q: int, r: int, L: int)
    requires L > 0 && 0 <= r < L && x == q * L + r
    ensures x / L == q && x % L == r
  {
    var q', r' := x / L, x % L;
    assert x == q' * L + r';
    assert (q - q') * L == r' - r;
    MulSign(q - q', L);
  }

  /** A non-zero multiple of `L > 0` is at least `L` away from zero. */
  lemma MulSign(d: int, L: int)
    requires L > 0
    ensures d >= 1 ==> d * L >= L
    ensures d <= -1 ==> d * L <= -L
  {
  }

  /** The powers of two that the 32-bit and byte arithmetic uses. */
  lemma Pow2Values()
    ensures Pow2(4) == 16 && Pow2(8) == 256 && Pow2(16) == 0x1_0000
    ensures Pow2(28) == 0x1000_0000 && Pow2(32) == 0x1_0000_0000
  {
    assert Pow2(4) == 16;
    assert Pow2(8) == 256;
    Pow2Add(8, 8);
    Pow2Add(16, 16);
    Pow2Add(16, 8);
    Pow2Add(24, 4);
  }

  lemma DivMod(x: int, L: int)
    requires L > 0
    ensures x / L * L + x % L == x && 0 <= x % L < L
  {
  }

  /** One more factor `n`. */
  lemma MulStep(q: int, n: int)
    ensures (q + 1) * n == q * n + n
    ensures n * (q + 1) == n * q + n
  {
  }

  lemma MulMono(a: nat, b: nat, c: nat)
    requires a <= b
    ensures a * c <= b * c
  {
  }

  lemma MulDistrib(h: int, p: int, l: int, q: int)
    ensures (h * p + l) * q == h * (p * q) + l * q
  {
  }

  /**
   * Splitting `i < p*q` at `p`: the quotient is below `q`, and multiplying
   * by `q` modulo `p*q` keeps only the remainder, moved up.
   */
  lemma SplitProduct(i: nat, p: nat, q: nat)
    requires p > 0 && q > 0 && i < p * q
    ensures 0 <= i / p < q
    ensures (i % p) * q + i / p < p * q
    ensures (i * q) % (p * q) == (i % p) * q
  {
    var lo, hi := i % p, i / p;
    assert i == hi * p + lo;
    assert hi < q by {
      if hi >= q {
        MulMono(q, hi, p);
      }
    }
    assert lo * q + hi < p * q by {
      MulMono(lo, p - 1, q);
      assert (p - 1) * q == p * q - q;
    }
    assert i * q == hi * (p * q) + lo * q by {
      MulDistrib(hi, p, lo, q);
    }
    ModUnique(i * q, hi, lo * q, p * q);
  }

  /**
   * Moving the remainder of `i` modulo `p` up by a factor `q` and the
   * quotient down, twice with the roles of `p` and `q` exchanged, gives `i`
   * back.
   */
  lemma SwapHalves(i: nat, p: nat, q: nat)
    requires p > 0 && q > 0 && i < p * q
    ensures var r := (i % p) * q + i / p;
      r < p * q && (r % q) * p + r / q == i
  {
    SplitProduct(i, p, q);
    var lo, hi := i % p, i / p;
    var r := lo * q + hi;
    ModUnique(r, lo, hi, q);
    assert i == hi * p + lo;
  }
}
