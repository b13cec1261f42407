/**
 * C-style fixed-width integer arithmetic on unbounded integers (haklib.c):
 * truncating division, the casts to `signed char` and `unsigned char`, and
 * 32-bit rotate, add and sum.
 */
module C {
  import opened Wrappers
  import opened Arith

  /** The number of distinct `uint32` values. */
  const Mod32: int := 0x1_0000_0000

  // ---------------------------------------------------------------------
  // c_div

  /** The result of c_div: a quotient, or Python's ZeroDivisionError. */
  datatype Quotient = Quotient(value: int) | ZeroDivisionError

  /** `int(math.copysign(1, x))` for an integer `x`: zero counts as positive. */
  function Sign(x: int): (s: int)
    ensures s == 1 || s == -1
    ensures s == 1 <==> x >= 0
  {
    if x >= 0 then 1 else -1
  }

  /** Python's `abs` on integers. */
  function Abs(x: int): (a: nat)
    ensures a == x || a == -x
  {
    if x >= 0 then x else -x
  }

  /**
   * The C rule for `q / d`: the remainder `q - t*d` is smaller than `d` in
   * magnitude and, unless it is zero, has the sign of `q`; that is, the
   * quotient is truncated toward zero.
   */
  predicate TruncatesTowardZero(q: int, d: int, t: int)
  {
    var rem := q - t * d;
    Abs(rem) < Abs(d) && (rem == 0 || (rem > 0 <==> q > 0))
  }

  /** Dividing magnitudes and multiplying by the product of the signs leaves the remainder `sq * (a % b)`. */
  lemma SignedDivMod(q: int, d: int, a: nat, b: nat, sq: int, sd: int)
    requires b > 0 && (sq == 1 || sq == -1) && (sd == 1 || sd == -1)
    requires q == sq * a && d == sd * b
    ensures q - (sq * sd * (a / b)) * d == sq * (a % b)
  {
    var t0, r0 := a / b, a % b;
    assert a == t0 * b + r0;
    if sq == 1 && sd == 1 {
    } else if sq == 1 {
      assert (sq * sd * t0) * (sd * b) == t0 * b;
    } else if sd == 1 {
      assert (sq * sd * t0) * (sd * b) == -(t0 * b);
    } else {
      assert (sq * sd * t0) * (sd * b) == -(t0 * b);
    }
  }

  /** A remainder of `q`'s sign and smaller than `d` makes `t` the truncated quotient. */
  lemma TruncatedByRemainder(q: int, d: int, t: int, r0: int)
    requires d != 0 && 0 <= r0 < Abs(d)
    requires q - t * d == Sign(q) * r0
    ensures TruncatesTowardZero(q, d, t)
  {
  }

  /** Multiplying by the product of the signs and dividing the magnitudes, as c_div does, truncates toward zero. */
  lemma SignedQuotient(q: int, d: int)
    requires d != 0
    ensures TruncatesTowardZero(q, d, Sign(q) * Sign(d) * (Abs(q) / Abs(d)))
  {
    SignedDivMod(q, d, Abs(q), Abs(d), Sign(q), Sign(d));
    TruncatedByRemainder(q, d, Sign(q) * Sign(d) * (Abs(q) / Abs(d)), Abs(q) % Abs(d));
  }

  /**
   * c_div: signed division with C behaviour.  The source computes
   * `s * int(abs(q) / abs(d))` with `s` the product of the signs; dividing
   * by zero raises ZeroDivisionError.
   */
  function CDiv(q: int, d: int): (r: Quotient)
    ensures r.ZeroDivisionError? <==> d == 0
    ensures r.Quotient? ==> TruncatesTowardZero(q, d, r.value)
  {
    if d == 0 then ZeroDivisionError
    else
      SignedQuotient(q, d);
      Quotient(Sign(q) * Sign(d) * (Abs(q) / Abs(d)))
  }

  /** A non-zero multiple of `d` is at least `d` in magnitude. */
  lemma MulAtLeast(k: int, d: int)
    requires k != 0
    ensures Abs(k * d) >= Abs(d)
  {
    if k > 0 && d >= 0 {
      assert k * d == (k - 1) * d + d;
    } else if k > 0 {
      assert k * d == (k - 1) * d + d;
      assert (k - 1) * (-d) >= 0;
    } else if d >= 0 {
      assert -(k * d) == (-k - 1) * d + d;
    } else {
      assert k * d == (-k - 1) * (-d) + (-d);
    }
  }

  /** Truncation toward zero fixes the quotient: c_div's contract leaves no choice. */
  lemma TruncationUnique(q: int, d: int, t: int, t': int)
    requires d != 0 && TruncatesTowardZero(q, d, t) && TruncatesTowardZero(q, d, t')
    ensures t == t'
  {
    var rem, rem' := q - t * d, q - t' * d;
    assert rem - rem' == (t' - t) * d;
    if t != t' {
      MulAtLeast(t' - t, d);
    }
  }

  /** The doctests of c_div. */
  lemma CDivExamples()
    ensures CDiv(10, 3) == Quotient(3) && CDiv(-10, -3) == Quotient(3)
    ensures CDiv(-10, 3) == Quotient(-3) && CDiv(10, -3) == Quotient(-3)
    ensures CDiv(-11, 0) == ZeroDivisionError
  {
  }

  // ---------------------------------------------------------------------
  // c_schar, c_uchar

  /**
   * c_uchar: `i & 0xFF`.  On Python's unbounded integers the mask keeps the
   * eight low bits of the two's-complement form, which is the Euclidean
   * remainder of `i` modulo 256, negative `i` included.
   */
  function CUchar(i: int): (r: int)
    ensures 0 <= r < 256
    ensures (i - r) % 256 == 0
  {
    i % 256
  }

  /** c_schar: `((i + 128) % 256) - 128`, with Python's floored `%`. */
  function CSchar(i: int): (r: int)
    ensures -128 <= r < 128
    ensures (i - r) % 256 == 0
  {
    (i + 128) % 256 - 128
  }

  /** Two values of one range of 256 consecutive integers that are congruent modulo 256 are equal. */
  lemma CongruentInRange(x: int, y: int, lo: int)
    requires lo <= x < lo + 256 && lo <= y < lo + 256 && (x - y) % 256 == 0
    ensures x == y
  {
    var k := (x - y) / 256;
    assert x - y == 256 * k;
  }

  /**
   * The signed cast reads the unsigned one as two's complement: the same
   * low byte, read as negative when its top bit is set.
   */
  lemma {:induction false} SignedIsTwosComplement(i: int)
    ensures CSchar(i) == if CUchar(i) < 128 then CUchar(i) else CUchar(i) - 256
    ensures CUchar(CSchar(i)) == CUchar(i)
  {
    var u, s := CUchar(i), CSchar(i);
    var expected := if u < 128 then u else u - 256;
    assert (i - expected) % 256 == 0 by {
      assert i - expected == (i - u) + (u - expected);
    }
    assert (s - expected) % 256 == 0 by {
      assert s - expected == (i - expected) - (i - s);
    }
    CongruentInRange(s, expected, -128);
    assert (s - u) % 256 == 0 by {
      assert s - u == (i - u) - (i - s);
    }
    CongruentInRange(CUchar(s), u, 0) by {
      assert CUchar(s) - u == (CUchar(s) - s) + (s - u);
    }
  }

  /** The doctests of c_schar and c_uchar. */
  lemma CharExamples()
    ensures CSchar(0x12345678) == 120
    ensures CSchar(-128) == -128 && CSchar(-129) == 127 && CSchar(127) == 127 && CSchar(128) == -128
    ensures CUchar(0x12345678) == 120
    ensures CUchar(-123) == 133 && CUchar(-1) == 255 && CUchar(255) == 255 && CUchar(256) == 0
  {
  }

  // ---------------------------------------------------------------------
  // c_rot32

  /** Values of the `uint32` range, the range c_rot32 works within. */
  type uint32 = x: int | 0 <= x < 0x1_0000_0000

  /** Python's `a | b` on the `n` low bits of two non-negative integers, bit by bit. */
  function OrBits(a: nat, b: nat, n: nat): nat
  {
    if n == 0 then 0
    else 2 * OrBits(a / 2, b / 2, n - 1) + (if a % 2 == 1 || b % 2 == 1 then 1 else 0)
  }

  lemma {:induction false} OrBitsBound(a: nat, b: nat, n: nat)
    ensures OrBits(a, b, n) < Pow2(n)
  {
    if n > 0 { OrBitsBound(a / 2, b / 2, n - 1); }
  }

  lemma {:induction false} OrBitsZero(a: nat, n: nat)
    requires a < Pow2(n)
    ensures OrBits(a, 0, n) == a
  {
    if n > 0 { OrBitsZero(a / 2, n - 1); }
  }

  /** Or-ing bits that do not overlap is adding them. */
  lemma {:induction false} OrDisjoint(x: nat, y: nat, m: nat, n: nat)
    requires m <= n && y < Pow2(m) && x * Pow2(m) < Pow2(n)
    ensures OrBits(x * Pow2(m), y, n) == x * Pow2(m) + y
  {
    if m == 0 {
      OrBitsZero(x, n);
    } else {
      var a := x * Pow2(m);
      assert a == 2 * (x * Pow2(m - 1));
      assert a % 2 == 0 && a / 2 == x * Pow2(m - 1);
      assert x * Pow2(m - 1) < Pow2(n - 1);
      OrDisjoint(x, y / 2, m - 1, n - 1);
    }
  }

  /** The left-rotation amount c_rot32 uses for `n`: a negative `n` becomes `32 + n`. */
  function RotAmount(n: int): int
  {
    if n < 0 then 32 + n else n
  }

  /** `2^(32 - m) * 2^m` is the 32-bit modulus. */
  lemma Pow2Split(m: nat)
    requires m <= 32
    ensures Pow2(32 - m) * Pow2(m) == Mod32 == Pow2(32)
  {
    Pow2Add(32 - m, m);
    Pow2Values();
  }

  /** Splitting `i` at bit `32 - m`: the two shifted parts of c_rot32 are the two halves of the rotation. */
  lemma ShiftParts(i: uint32, m: nat)
    requires m <= 32
    ensures (i * Pow2(m)) % Mod32 == (i % Pow2(32 - m)) * Pow2(m)
    ensures 0 <= i / Pow2(32 - m) < Pow2(m)
    ensures (i % Pow2(32 - m)) * Pow2(m) < Pow2(32)
    ensures (i % Pow2(32 - m)) * Pow2(m) + i / Pow2(32 - m) < Mod32
  {
    Pow2Split(m);
    SplitProduct(i, Pow2(32 - m), Pow2(m));
  }

  /**
   * Rotation of a 32-bit value left by `m`: its low `32 - m` bits move up by
   * `m` places and its top `m` bits come down to the bottom.
   */
  function Rotated(i: uint32, m: nat): uint32
    requires m <= 32
  {
    ShiftParts(i, m);
    (i % Pow2(32 - m)) * Pow2(m) + i / Pow2(32 - m)
  }

  /** The or of the two shifted parts is their sum, the rotation. */
  lemma OrOfShifts(i: uint32, m: nat)
    requires m <= 32
    ensures 0 <= i / Pow2(32 - m)
    ensures OrBits((i * Pow2(m)) % Mod32, i / Pow2(32 - m), 32) == Rotated(i, m)
  {
    ShiftParts(i, m);
    Pow2Values();
    OrDisjoint(i % Pow2(32 - m), i / Pow2(32 - m), m, 32);
  }

  /**
   * c_rot32: `((i << n) & 0xFFFFFFFF) | (i >> (32 - n))` after a negative
   * `n` became `32 + n`, for an `i` of the `uint32` range; `i << n` is
   * `i * 2^n`, the mask keeps the low 32 bits and `i >> k` is `i / 2^k`.
   * A shift count that is still negative (`n < -32` or `n > 32`) raises
   * ValueError in Python, here None.
   */
  function CRot32(i: uint32, n: int): (r: Option<uint32>)
    ensures r.Some? <==> -32 <= n <= 32
    ensures r.Some? ==> r.value == Rotated(i, RotAmount(n))
  {
    if n < -32 || n > 32 then None
    else
      var m := RotAmount(n);
      OrOfShifts(i, m);
      Some(OrBits((i * Pow2(m)) % Mod32, i / Pow2(32 - m), 32))
  }

  /** Rotating by `m` and then by `32 - m` restores the value. */
  lemma RotatedInverse(i: uint32, m: nat)
    requires m <= 32
    ensures Rotated(Rotated(i, m), 32 - m) == i
  {
    Pow2Add(32 - m, m);
    Pow2Values();
    SwapHalves(i, Pow2(32 - m), Pow2(m));
  }

  /** Rotating by `n` and then by `-n` restores the value. */
  lemma RotInverse(i: uint32, n: int)
    requires -32 <= n <= 32
    ensures CRot32(i, n).Some? && CRot32(CRot32(i, n).value, -n) == Some(i)
  {
    var m := RotAmount(n);
    var r := Rotated(i, m);
    assert CRot32(i, n) == Some(r);
    if n == 0 {
      Pow2Values();
      ModUnique(i, 0, i, Mod32);
      assert r == i;
    } else {
      RotatedInverse(i, m);
      assert RotAmount(-n) == 32 - m;
    }
  }

  /** The doctests of c_rot32. */
  lemma Rot32Examples()
    ensures CRot32(0xF000_0000, 4) == Some(15)
    ensures CRot32(0xF0, -4) == Some(15)
  {
    Pow2Values();
    assert CRot32(0xF000_0000, 4).value == Rotated(0xF000_0000, 4) == 15;
    assert CRot32(0xF0, -4).value == Rotated(0xF0, 28) == 15;
  }

  // ---------------------------------------------------------------------
  // c_add32, c_sum32

  /** c_add32: `(a + b) & 0xFFFFFFFF`, the sum reduced into the `uint32` range. */
  function CAdd32(a: int, b: int): (r: int)
    ensures 0 <= r < Mod32
    ensures (a + b - r) % Mod32 == 0
  {
    (a + b) % Mod32
  }

  /** Python's `sum` over a sequence of integers. */
  function Sum(args: seq<int>): int
  {
    if args == [] then 0 else Sum(args[..|args| - 1]) + args[|args| - 1]
  }

  /** c_sum32: `sum(args) & 0xFFFFFFFF`. */
  function CSum32(args: seq<int>): (r: int)
    ensures 0 <= r < Mod32
    ensures (Sum(args) - r) % Mod32 == 0
  {
    Sum(args) % Mod32
  }

  /** Reducing a partial sum before adding the next term changes nothing modulo 2^32. */
  lemma ReduceThenAdd(s: int, x: int)
    ensures (s % Mod32 + x) % Mod32 == (s + x) % Mod32
  {
    var q := s / Mod32;
    var y := s % Mod32 + x;
    var q', r' := y / Mod32, y % Mod32;
    assert s == q * Mod32 + s % Mod32;
    assert y == q' * Mod32 + r';
    assert s + x == (q + q') * Mod32 + r';
    ModUnique(s + x, q + q', r', Mod32);
  }

  /** c_sum32 is the fold of c_add32: one more term is one more 32-bit addition. */
  lemma {:induction false} Sum32Snoc(args: seq<int>, x: int)
    ensures CSum32(args + [x]) == CAdd32(CSum32(args), x)
  {
    assert (args + [x])[..|args|] == args;
    ReduceThenAdd(Sum(args), x);
  }

  /** On two arguments c_sum32 and c_add32 agree. */
  lemma Sum32Pair(a: int, b: int)
    ensures CSum32([a, b]) == CAdd32(a, b)
  {
    assert [a, b][..1] == [a];
    assert [a][..0] == [];
    assert Sum([a]) == a;
  }

  /** The doctests of c_add32 and c_sum32. */
  lemma Add32Examples()
    ensures CAdd32(0xFFFF_FFFF, 1) == 0
    ensures CAdd32(0xFFFF_FFFF, 0xFFFF_FFFF) == 4294967294
    ensures CSum32([0xFFFF_FFFF, 0xFFFF_FFFF, 0xFFFF_FFFF]) == 4294967293
  {
    Sum32Pair(0xFFFF_FFFF, 0xFFFF_FFFF);
    Sum32Snoc([0xFFFF_FFFF, 0xFFFF_FFFF], 0xFFFF_FFFF);
    assert [0xFFFF_FFFF, 0xFFFF_FFFF] + [0xFFFF_FFFF] == [0xFFFF_FFFF, 0xFFFF_FFFF, 0xFFFF_FFFF];
  }
}
