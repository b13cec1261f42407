/**
 * Repeating-key XOR and its cryptanalysis (haklib.xor): the cipher, the
 * index of coincidence, detection of the key length, XOR differentials and
 * the known-plaintext attack.
 *
 * Every operation of the source is an imperative method with loops; each is
 * proved equal to a specification function, and the properties the source
 * relies on are lemmas about those functions.
 */
module Xor {
  import opened Wrappers
  import opened Bytes
  import opened Arith

  // ---------------------------------------------------------------------
  // Arithmetic helpers

  /** Adding the modulus does not change a remainder. */
  lemma ModPeriod(i: nat, L: nat)
    requires L > 0
    ensures (i + L) % L == i % L
  {
    var q, r := i / L, i % L;
    assert i == q * L + r;
    assert i + L == (q + 1) * L + r;
    ModUnique(i + L, q + 1, r, L);
  }

  // ---------------------------------------------------------------------
  // xorcrypt

  /**
   * The key byte used at position `i` of the buffer: the key repeated
   * end to end, so that `KeyAt(key, i)` is `key[i % |key|]` (KeyAtMod).
   */
  function KeyAt(key: seq<byte>, i: nat): byte
    requires |key| > 0
    decreases i
  {
    if i < |key| then key[i] else KeyAt(key, i - |key|)
  }

  lemma {:induction false} KeyAtMod(key: seq<byte>, i: nat)
    requires |key| > 0
    ensures KeyAt(key, i) == key[i % |key|]
    decreases i
  {
    if i < |key| {
      ModUnique(i, 0, i, |key|);
    } else {
      KeyAtMod(key, i - |key|);
      ModPeriod(i - |key|, |key|);
    }
  }

  /** Repeating-key XOR of `buf` under `key`; the empty key leaves `buf` as it is. */
  function Crypt(buf: seq<byte>, key: seq<byte>): (r: seq<byte>)
    ensures |r| == |buf|
  {
    if |key| == 0 then buf
    else seq(|buf|, i requires 0 <= i < |buf| => Xor(buf[i], KeyAt(key, i)))
  }

  lemma CryptAt(buf: seq<byte>, key: seq<byte>, i: nat)
    requires |key| > 0 && i < |buf|
    ensures |Crypt(buf, key)| == |buf|
    ensures Crypt(buf, key)[i] == Xor(buf[i], KeyAt(key, i))
  {
  }

  /** After one key length of bytes the key starts over: the rest is encrypted on its own. */
  lemma CryptBlock(x: seq<byte>, y: seq<byte>, key: seq<byte>)
    requires |key| > 0 && |x| == |key|
    ensures Crypt(x + y, key) == Crypt(x, key) + Crypt(y, key)
  {
    forall i | 0 <= i < |x + y|
      ensures Crypt(x + y, key)[i] == (Crypt(x, key) + Crypt(y, key))[i]
    {
      CryptAt(x + y, key, i);
      if i < |x| {
        CryptAt(x, key, i);
      } else {
        CryptAt(y, key, i - |x|);
        KeyAtShift(key, i - |x|);
      }
    }
  }

  /** xorcrypt: byte `i` of the result is `buf[i]` XOR the key byte of phase `i`. */
  method XorCrypt(buf: seq<byte>, key: seq<byte>) returns (out: seq<byte>)
    ensures |out| == |buf|
    ensures |key| == 0 ==> out == buf
    ensures |key| > 0 ==> forall i :: 0 <= i < |buf| ==> out[i] == Xor(buf[i], key[i % |key|])
    ensures out == Crypt(buf, key)
  {
    if |key| == 0 {
      return buf;
    }
    out := [];
    for i := 0 to |buf|
      invariant |out| == i
      invariant forall j :: 0 <= j < i ==> out[j] == Xor(buf[j], key[j % |key|])
      invariant forall j :: 0 <= j < i ==> out[j] == Crypt(buf, key)[j]
    {
      KeyAtMod(key, i);
      out := out + [Xor(buf[i], key[i % |key|])];
    }
  }

  /** Encrypting twice under the same key gives the buffer back. */
  lemma CryptInvolution(buf: seq<byte>, key: seq<byte>)
    ensures Crypt(Crypt(buf, key), key) == buf
  {
    if |key| > 0 {
      var c := Crypt(buf, key);
      assert |Crypt(c, key)| == |buf|;
      forall i | 0 <= i < |buf|
        ensures Crypt(c, key)[i] == buf[i]
      {
        CryptAt(buf, key, i);
        CryptAt(c, key, i);
        XorInvolution(buf[i], KeyAt(key, i));
      }
    }
  }

  /**
   * The shape of the doctests of xorcrypt: a key equal to the start of the
   * buffer zeroes that start, and the key repeats over the rest.
   */
  lemma CryptExamples(p: byte, q: byte, r: byte, s: byte, t: byte)
    ensures Crypt([p, q, r, s], [p, q]) == [0, 0, Xor(r, p), Xor(s, q)]
    ensures Crypt([p, q, r, s, t], [p, q]) == [0, 0, Xor(r, p), Xor(s, q), Xor(t, p)]
  {
    XorSelf(p);
    XorSelf(q);
    var c4, c5 := Crypt([p, q, r, s], [p, q]), Crypt([p, q, r, s, t], [p, q]);
    assert c4[0] == 0 && c4[1] == 0 && c4[2] == Xor(r, p) && c4[3] == Xor(s, q);
    assert c5[0] == 0 && c5[1] == 0 && c5[2] == Xor(r, p) && c5[3] == Xor(s, q) && c5[4] == Xor(t, p);
  }

  // ---------------------------------------------------------------------
  // xordiff

  /** The differential of `buf` at `period`: each byte XOR the byte `period` places later. */
  function Diff(buf: seq<byte>, period: nat): (r: seq<byte>)
    ensures |r| == if |buf| > period then |buf| - period else 0
  {
    if |buf| <= period then []
    else seq(|buf| - period, i requires 0 <= i < |buf| - period => Xor(buf[i], buf[i + period]))
  }

  /** xordiff: `max(0, |buf| - period)` bytes, byte `i` being `Xor(buf[i], buf[i + period])`. */
  method XorDiff(buf: seq<byte>, period: nat) returns (out: seq<byte>)
    ensures |out| == if |buf| > period then |buf| - period else 0
    ensures forall i :: 0 <= i < |out| ==> out[i] == Xor(buf[i], buf[i + period])
    ensures out == Diff(buf, period)
  {
    out := [];
    var n := if |buf| > period then |buf| - period else 0;
    for base := 0 to n
      invariant |out| == base
      invariant forall i :: 0 <= i < base ==> out[i] == Xor(buf[i], buf[i + period])
    {
      out := out + [Xor(buf[base], buf[base + period])];
    }
  }

  lemma DiffAt(buf: seq<byte>, period: nat, i: nat)
    requires i + period < |buf|
    ensures |Diff(buf, period)| == |buf| - period
    ensures Diff(buf, period)[i] == Xor(buf[i], buf[i + period])
  {
  }

  /** The key repeats with period `|key|`. */
  lemma KeyAtShift(key: seq<byte>, i: nat)
    requires |key| > 0
    ensures KeyAt(key, i + |key|) == KeyAt(key, i)
  {
  }

  /** Two positions `L` apart that were XORed with the same key byte have the plaintext's differential. */
  lemma DiffCancel(c: seq<byte>, buf: seq<byte>, L: nat, i: nat, k: byte)
    requires |c| == |buf| && i + L < |buf|
    requires c[i] == Xor(buf[i], k) && c[i + L] == Xor(buf[i + L], k)
    ensures Diff(c, L)[i] == Diff(buf, L)[i]
  {
    DiffAt(c, L, i);
    DiffAt(buf, L, i);
    XorCancel(buf[i], buf[i + L], k);
  }

  /** Byte `i` of the differential of the ciphertext at the key length is the plaintext's. */
  lemma DiffKeyAt(buf: seq<byte>, key: seq<byte>, i: nat)
    requires |key| > 0 && i + |key| < |buf|
    ensures Diff(Crypt(buf, key), |key|)[i] == Diff(buf, |key|)[i]
  {
    KeyAtShift(key, i);
    CryptAt(buf, key, i);
    CryptAt(buf, key, i + |key|);
    DiffCancel(Crypt(buf, key), buf, |key|, i, KeyAt(key, i));
  }

  /** At the key length the differential cancels the key: it is the plaintext's differential. */
  lemma DiffKeyInvariant(buf: seq<byte>, key: seq<byte>)
    requires |key| > 0
    ensures Diff(Crypt(buf, key), |key|) == Diff(buf, |key|)
  {
    var L := |key|;
    if |buf| > L {
      forall i | 0 <= i < |buf| - L
        ensures Diff(Crypt(buf, key), L)[i] == Diff(buf, L)[i]
      {
        DiffKeyAt(buf, key, i);
      }
    }
  }

  /** The shape of the doctest of xordiff, and a period at least the length gives nothing. */
  lemma DiffExamples(buf: seq<byte>, period: nat, a: byte, b: byte, c: byte, d: byte, e: byte, f: byte, g: byte)
    ensures Diff([a, b, c, d, e, f, g], 3) == [Xor(a, d), Xor(b, e), Xor(c, f), Xor(d, g)]
    ensures period >= |buf| ==> Diff(buf, period) == []
  {
  }

  // ---------------------------------------------------------------------
  // ioc

  /** The number of positions `i < n` where `buf[i] ^ buf[i + shift]` is zero. */
  function CoincidencesBelow(buf: seq<byte>, shift: nat, n: nat): (r: nat)
    requires n + shift <= |buf|
    ensures r <= n
  {
    if n == 0 then 0
    else CoincidencesBelow(buf, shift, n - 1) + (if Xor(buf[n - 1], buf[n - 1 + shift]) == 0 then 1 else 0)
  }

  /** The index of coincidence of `buf` at `shift`, counted over all `|buf| - shift` pairs. */
  function Coincidences(buf: seq<byte>, shift: nat): (r: nat)
    ensures r <= if |buf| > shift then |buf| - shift else 0
  {
    if |buf| <= shift then 0 else CoincidencesBelow(buf, shift, |buf| - shift)
  }

  /** ioc: counts the zero bytes of `buf` XOR `buf` shifted by `shift`; the source asserts `shift > 0`. */
  method Ioc(buf: seq<byte>, shift: int) returns (zeroes: nat)
    requires shift > 0
    ensures zeroes == Coincidences(buf, shift)
    ensures zeroes <= if |buf| > shift then |buf| - shift else 0
  {
    zeroes := 0;
    var n := if |buf| > shift then |buf| - shift else 0;
    for i := 0 to n
      invariant n > 0 ==> zeroes == CoincidencesBelow(buf, shift, i)
      invariant n == 0 ==> zeroes == 0
    {
      if Xor(buf[i], buf[i + shift]) == 0 {
        zeroes := zeroes + 1;
      }
    }
  }

  /** The number of zero bytes in `d`. */
  function ZeroCount(d: seq<byte>): nat
  {
    if d == [] then 0 else ZeroCount(d[..|d| - 1]) + (if d[|d| - 1] == 0 then 1 else 0)
  }

  /** The index of coincidence is the number of zeroes in the differential at that shift. */
  lemma {:induction false} CoincidencesAreDiffZeroes(buf: seq<byte>, shift: nat)
    ensures Coincidences(buf, shift) == ZeroCount(Diff(buf, shift))
  {
    if |buf| > shift {
      ZeroesBelow(buf, shift, |buf| - shift);
      assert Diff(buf, shift)[..|buf| - shift] == Diff(buf, shift);
    }
  }

  lemma ZeroCountSnoc(d: seq<byte>, n: nat)
    requires 0 < n <= |d|
    ensures ZeroCount(d[..n]) == ZeroCount(d[..n - 1]) + (if d[n - 1] == 0 then 1 else 0)
  {
    assert d[..n][..n - 1] == d[..n - 1];
  }

  lemma {:induction false} ZeroesBelow(buf: seq<byte>, shift: nat, n: nat)
    requires n + shift <= |buf| && |buf| > shift
    ensures CoincidencesBelow(buf, shift, n) == ZeroCount(Diff(buf, shift)[..n])
  {
    if n > 0 {
      ZeroesBelow(buf, shift, n - 1);
      var d := Diff(buf, shift);
      ZeroCountSnoc(d, n);
      assert d[n - 1] == Xor(buf[n - 1], buf[n - 1 + shift]);
    }
  }

  /** Byte `i` of `buf` equals the byte `shift` places later. */
  predicate Coincide(buf: seq<byte>, shift: nat, i: nat)
    requires i + shift < |buf|
  {
    buf[i] == buf[i + shift]
  }

  /** The XOR test of ioc is an equality test: it counts the positions that coincide. */
  lemma {:induction false} CoincidencesCountEqualPairs(buf: seq<byte>, shift: nat, n: nat)
    requires n + shift <= |buf|
    ensures CoincidencesBelow(buf, shift, n) == |set i: nat | i < n && Coincide(buf, shift, i)|
  {
    if n > 0 {
      CoincidencesCountEqualPairs(buf, shift, n - 1);
      XorZeroIff(buf[n - 1], buf[n - 1 + shift]);
      var prev := set i: nat | i < n - 1 && Coincide(buf, shift, i);
      var all := set i: nat | i < n && Coincide(buf, shift, i);
      assert n - 1 !in prev;
      if Coincide(buf, shift, n - 1) {
        assert all == prev + {n - 1};
        assert |all| == |prev| + 1;
      } else {
        assert all == prev;
      }
      assert CoincidencesBelow(buf, shift, n) == CoincidencesBelow(buf, shift, n - 1) + (if Xor(buf[n - 1], buf[n - 1 + shift]) == 0 then 1 else 0);
    }
  }

  /** A shift at which no byte equals the one `shift` places later has no coincidences. */
  lemma NoCoincidences(buf: seq<byte>, shift: nat)
    requires forall i :: 0 <= i < |buf| - shift ==> buf[i] != buf[i + shift]
    ensures Coincidences(buf, shift) == 0
  {
    if |buf| > shift {
      CoincidencesCountEqualPairs(buf, shift, |buf| - shift);
      var pairs := set i: nat | i < |buf| - shift && Coincide(buf, shift, i);
      assert pairs == {};
    }
  }

  /** One coinciding pair makes a coincidence. */
  lemma SomeCoincidence(buf: seq<byte>, shift: nat, j: nat)
    requires j + shift < |buf| && buf[j] == buf[j + shift]
    ensures Coincidences(buf, shift) >= 1
  {
    CoincidencesCountEqualPairs(buf, shift, |buf| - shift);
    var pairs := set i: nat | i < |buf| - shift && Coincide(buf, shift, i);
    assert j in pairs;
  }

  /** The shape of the doctest of ioc: a period-2 buffer of four bytes coincides twice at shift 2. */
  lemma IocExample(a: byte, b: byte)
    ensures Coincidences([a, b, a, b], 2) == 2
  {
    XorSelf(a);
    XorSelf(b);
    assert CoincidencesBelow([a, b, a, b], 2, 1) == 1;
  }

  // ---------------------------------------------------------------------
  // keylen_ioc

  /**
   * Shift `shift` qualifies when the coincidence rate `zeroes / |buf|` exceeds
   * the limit `limitNum / limitDen`, compared exactly.
   */
  predicate Qualifies(buf: seq<byte>, shift: nat, limitNum: int, limitDen: int)
    requires |buf| > 0 && limitDen > 0
  {
    Coincidences(buf, shift) * limitDen > limitNum * |buf|
  }

  /** The smallest shift in `[lo, hi)` that qualifies, if there is one. */
  function SmallestKeyLen(buf: seq<byte>, lo: int, hi: int, limitNum: int, limitDen: int): (r: Option<int>)
    requires limitDen > 0
    requires lo >= hi || (lo > 0 && |buf| > 0)
    ensures r.Some? ==> lo <= r.value < hi && Qualifies(buf, r.value, limitNum, limitDen)
    ensures r.Some? ==> forall s :: lo <= s < r.value ==> !Qualifies(buf, s, limitNum, limitDen)
    ensures r.None? ==> forall s :: lo <= s < hi ==> !Qualifies(buf, s, limitNum, limitDen)
    decreases hi - lo
  {
    if lo >= hi then None
    else if Qualifies(buf, lo, limitNum, limitDen) then Some(lo)
    else SmallestKeyLen(buf, lo + 1, hi, limitNum, limitDen)
  }

  /** The default shift range `(1, 64)` and limit `0.01` of keylen_ioc. */
  const ShiftLo: int := 1
  const ShiftHi: int := 64
  const LimitNum: int := 1
  const LimitDen: int := 100

  /**
   * With the default range and limit, a short buffer without coincidences at
   * shifts 1 and 2 and with one at shift 3 has key length 3.
   */
  lemma DetectsThree(buf: seq<byte>, j: nat)
    requires 0 < |buf| < LimitDen
    requires forall i :: 0 <= i < |buf| - 1 ==> buf[i] != buf[i + 1]
    requires forall i :: 0 <= i < |buf| - 2 ==> buf[i] != buf[i + 2]
    requires j + 3 < |buf| && buf[j] == buf[j + 3]
    ensures SmallestKeyLen(buf, ShiftLo, ShiftHi, LimitNum, LimitDen) == Some(3)
  {
    NoCoincidences(buf, 1);
    NoCoincidences(buf, 2);
    SomeCoincidence(buf, 3, j);
    assert !Qualifies(buf, 1, LimitNum, LimitDen) && !Qualifies(buf, 2, LimitNum, LimitDen);
    assert Qualifies(buf, 3, LimitNum, LimitDen);
    assert SmallestKeyLen(buf, 3, ShiftHi, LimitNum, LimitDen) == Some(3);
    assert SmallestKeyLen(buf, 2, ShiftHi, LimitNum, LimitDen) == Some(3);
  }

  /**
   * keylen_ioc: the first shift of `[lo, hi)` whose coincidence rate exceeds
   * the limit, or None.  A non-empty range needs a non-empty buffer (the
   * source divides by `len(buf)`) and positive shifts (ioc asserts them).
   */
  method KeyLenIoc(buf: seq<byte>, lo: int, hi: int, limitNum: int, limitDen: int) returns (r: Option<int>)
    requires limitDen > 0
    requires lo >= hi || (lo > 0 && |buf| > 0)
    ensures r == SmallestKeyLen(buf, lo, hi, limitNum, limitDen)
  {
    var shift := lo;
    while shift < hi
      invariant lo <= shift
      invariant SmallestKeyLen(buf, shift, hi, limitNum, limitDen) == SmallestKeyLen(buf, lo, hi, limitNum, limitDen)
      decreases hi - shift
    {
      var zeroes := Ioc(buf, shift);
      if zeroes * limitDen > limitNum * |buf| {
        return Some(shift);
      }
      shift := shift + 1;
    }
    return None;
  }

  // ---------------------------------------------------------------------
  // xorattack_kpt: matching differentials

  /** `d` contains `pat` starting at offset `i` (Python's `d.startswith(pat, i)`). */
  predicate StartsAt(d: seq<byte>, pat: seq<byte>, i: nat)
  {
    i + |pat| <= |d| && d[i .. i + |pat|] == pat
  }

  /** The offsets below `n` at which `d` contains `pat`, in ascending order. */
  function MatchOffsets(d: seq<byte>, pat: seq<byte>, n: nat): (r: seq<nat>)
    requires n <= |d|
    ensures forall m: nat :: m in r <==> m < n && StartsAt(d, pat, m)
    ensures forall a :: 0 <= a < |r| ==> r[a] < n && StartsAt(d, pat, r[a])
    ensures forall a, b :: 0 <= a < b < |r| ==> r[a] < r[b]
  {
    if n == 0 then []
    else MatchOffsets(d, pat, n - 1) + (if StartsAt(d, pat, n - 1) then [n - 1] else [])
  }

  /** The offsets at which the differential of fragment `kpt` occurs in that of `buf`, as `startswith` finds them. */
  function FragmentMatches(buf: seq<byte>, kpt: seq<byte>, L: nat): (r: seq<nat>)
    ensures forall a :: 0 <= a < |r| ==> r[a] + L < |buf| && StartsAt(Diff(buf, L), Diff(kpt, L), r[a])
    ensures forall a, b :: 0 <= a < b < |r| ==> r[a] < r[b]
  {
    var d := Diff(buf, L);
    MatchOffsets(d, Diff(kpt, L), |d|)
  }

  /** Offset `m` is a match of fragment `kpt` in `buf` at key length `L`. */
  predicate IsMatch(buf: seq<byte>, kpt: seq<byte>, m: nat, L: nat)
  {
    m + L <= |buf| && L <= |kpt| && StartsAt(Diff(buf, L), Diff(kpt, L), m)
  }

  /** Ciphertext at offset `m` and the fragment `kpt` have the same differential at period `L`. */
  predicate DiffsAgree(buf: seq<byte>, kpt: seq<byte>, m: nat, L: nat)
  {
    m + |kpt| <= |buf|
    && forall i :: 0 <= i < |kpt| - L ==> Xor(buf[m + i], buf[m + i + L]) == Xor(kpt[i], kpt[i + L])
  }

  /** A sequence that starts with `pat` at offset `m` holds `pat[i]` at `m + i`. */
  lemma StartsAtIndex(d: seq<byte>, pat: seq<byte>, m: nat, i: nat)
    requires StartsAt(d, pat, m) && i < |pat|
    ensures d[m + i] == pat[i]
  {
    assert d[m .. m + |pat|][i] == pat[i];
  }

  /** At a match, differential byte `i` of the fragment is that of the ciphertext at `m + i`. */
  lemma MatchDiffAt(buf: seq<byte>, kpt: seq<byte>, m: nat, L: nat, i: nat)
    requires IsMatch(buf, kpt, m, L) && i + L < |kpt|
    ensures m + i + L < |buf|
    ensures Xor(buf[m + i], buf[m + i + L]) == Xor(kpt[i], kpt[i + L])
  {
    DiffMatchAt(Diff(buf, L), Diff(kpt, L), buf, kpt, m, L, i);
  }

  /** The same, for the two differentials given by name. */
  lemma DiffMatchAt(dB: seq<byte>, dK: seq<byte>, buf: seq<byte>, kpt: seq<byte>, m: nat, L: nat, i: nat)
    requires i + L < |kpt| && m + L <= |buf| && StartsAt(dB, dK, m)
    requires dB == Diff(buf, L) && dK == Diff(kpt, L)
    ensures m + i + L < |buf|
    ensures Xor(buf[m + i], buf[m + i + L]) == Xor(kpt[i], kpt[i + L])
  {
    StartsAtIndex(dB, dK, m, i);
    DiffAt(buf, L, m + i);
    DiffAt(kpt, L, i);
  }

  /** A match lines the fragment up inside the ciphertext, differential byte by differential byte. */
  lemma MatchDiffs(buf: seq<byte>, kpt: seq<byte>, m: nat, L: nat)
    requires IsMatch(buf, kpt, m, L)
    ensures DiffsAgree(buf, kpt, m, L)
  {
    if |kpt| <= L {
      assert m + |kpt| <= |buf|;
    } else {
      forall i | 0 <= i < |kpt| - L
        ensures Xor(buf[m + i], buf[m + i + L]) == Xor(kpt[i], kpt[i + L])
      {
        MatchDiffAt(buf, kpt, m, L, i);
      }
    }
  }

  // ---------------------------------------------------------------------
  // xorattack_kpt: key recovery

  /** The key bytes recovered at offset `m`, in the phase of the fragment. */
  function RawKey(buf: seq<byte>, kpt: seq<byte>, m: nat, L: nat): seq<byte>
    requires m + L <= |buf| && L <= |kpt|
  {
    seq(L, j requires 0 <= j < L => Xor(buf[m + j], kpt[j]))
  }

  /**
   * `raw` rotated left by `|raw| - m % |raw|` (not at all when `m` is a
   * multiple of `|raw|`): the byte at position `j` of `raw` moves to the
   * phase of byte `m + j`.
   */
  function Phased(raw: seq<byte>, m: nat): (r: seq<byte>)
    requires |raw| > 0
    ensures |r| == |raw|
  {
    var off := |raw| - m % |raw|;
    if off < |raw| then raw[off..] + raw[..off] else raw
  }

  /** The phase of byte `m + j`, for `j` below the period. */
  lemma PhaseIndex(m: nat, j: nat, L: nat)
    requires 0 < L && j < L
    ensures (m + j) % L == if m % L + j < L then m % L + j else m % L + j - L
  {
    assert m == (m / L) * L + m % L;
    if m % L + j < L {
      ModUnique(m + j, m / L, m % L + j, L);
    } else {
      assert m + j == (m / L + 1) * L + (m % L + j - L);
      ModUnique(m + j, m / L + 1, m % L + j - L, L);
    }
  }

  /** Rotating to the phase of `m` puts byte `j` at the phase of `m + j`. */
  lemma PhasedAt(raw: seq<byte>, m: nat, j: nat)
    requires j < |raw|
    ensures Phased(raw, m)[(m + j) % |raw|] == raw[j]
    ensures KeyAt(Phased(raw, m), m + j) == raw[j]
  {
    KeyAtMod(Phased(raw, m), m + j);
    var L := |raw|;
    var r := m % L;
    var t := (m + j) % L;
    PhaseIndex(m, j, L);
    if r != 0 {
      var off := L - r;
      assert |raw[off..]| == r;
      if r + j < L {
        assert Phased(raw, m)[t] == raw[..off][t - r];
      } else {
        assert Phased(raw, m)[t] == raw[off..][t];
      }
    }
  }

  /** The recovered key rotated so that its byte 0 is the key byte of ciphertext byte 0. */
  function PhaseKey(buf: seq<byte>, kpt: seq<byte>, m: nat, L: nat): seq<byte>
    requires 0 < L && m + L <= |buf| && L <= |kpt|
  {
    Phased(RawKey(buf, kpt, m, L), m)
  }

  /** The phased key at the phase of ciphertext byte `m + j` is what the fragment implies there. */
  lemma PhaseKeyAt(buf: seq<byte>, kpt: seq<byte>, m: nat, L: nat, j: nat)
    requires 0 < L && m + L <= |buf| && L <= |kpt| && j < L
    ensures |PhaseKey(buf, kpt, m, L)| == L
    ensures PhaseKey(buf, kpt, m, L)[(m + j) % L] == Xor(buf[m + j], kpt[j])
    ensures KeyAt(PhaseKey(buf, kpt, m, L), m + j) == Xor(buf[m + j], kpt[j])
  {
    PhasedAt(RawKey(buf, kpt, m, L), m, j);
  }

  /** Every byte of the phased key sits at the phase of the ciphertext byte it decrypts. */
  lemma PhaseKeyPhases(buf: seq<byte>, kpt: seq<byte>, m: nat, L: nat)
    requires 0 < L && m + L <= |buf| && L <= |kpt|
    ensures |PhaseKey(buf, kpt, m, L)| == L
    ensures forall j :: 0 <= j < L ==> PhaseKey(buf, kpt, m, L)[(m + j) % L] == Xor(buf[m + j], kpt[j])
  {
    forall j | 0 <= j < L
      ensures PhaseKey(buf, kpt, m, L)[(m + j) % L] == Xor(buf[m + j], kpt[j])
    {
      PhaseKeyAt(buf, kpt, m, L, j);
    }
  }

  /** xorattack_kpt's inner loop: recover the key at match `m` and rotate it to phase 0. */
  method RecoverKey(buf: seq<byte>, kpt: seq<byte>, m: nat, L: nat) returns (key: seq<byte>)
    requires 0 < L && m + L <= |buf| && L <= |kpt|
    ensures |key| == L
    ensures forall j :: 0 <= j < L ==> key[(m + j) % L] == Xor(buf[m + j], kpt[j])
    ensures key == PhaseKey(buf, kpt, m, L)
  {
    ghost var raw := RawKey(buf, kpt, m, L);
    key := [];
    for i := 0 to L
      invariant |key| == i
      invariant forall j :: 0 <= j < i ==> key[j] == raw[j]
    {
      key := key + [Xor(buf[m + i], kpt[i])];
    }
    assert key == raw;
    var keyoffset := L - m % L;
    if keyoffset < L {
      key := key[keyoffset..] + key[..keyoffset];
    }
    assert key == Phased(raw, m);
    PhaseKeyPhases(buf, kpt, m, L);
  }

  /** The first `n` bytes at offset `m` decrypt under the repeating `key` to those of `kpt`. */
  predicate DecryptsTo(buf: seq<byte>, key: seq<byte>, kpt: seq<byte>, m: nat, n: nat)
    requires |key| > 0 && n <= |kpt| && m + n <= |buf|
  {
    forall j :: 0 <= j < n ==> Xor(buf[m + j], KeyAt(key, m + j)) == kpt[j]
  }

  /** One step of the decryption argument: a byte `L` further on decrypts as well. */
  lemma DecryptStep(buf: seq<byte>, kpt: seq<byte>, key: seq<byte>, m: nat, L: nat, j: nat)
    requires 0 < L == |key| && L <= j < |kpt| && m + j < |buf|
    requires Xor(buf[m + j - L], buf[m + j]) == Xor(kpt[j - L], kpt[j])
    requires Xor(buf[m + j - L], KeyAt(key, m + j - L)) == kpt[j - L]
    ensures Xor(buf[m + j], KeyAt(key, m + j)) == kpt[j]
  {
    assert KeyAt(key, m + j) == KeyAt(key, m + j - L);
    XorTransfer(buf[m + j - L], buf[m + j], kpt[j - L], kpt[j], KeyAt(key, m + j));
  }

  /**
   * When the differentials agree, a key that decrypts the first `|key|`
   * bytes of the fragment decrypts its first `n` bytes.
   */
  lemma {:induction false} DecryptsFrom(buf: seq<byte>, key: seq<byte>, kpt: seq<byte>, m: nat, n: nat)
    requires 0 < |key| <= |kpt| && n <= |kpt|
    requires DiffsAgree(buf, kpt, m, |key|) && DecryptsTo(buf, key, kpt, m, |key|)
    ensures DecryptsTo(buf, key, kpt, m, n)
    decreases n
  {
    var L := |key|;
    if n > L {
      DecryptsFrom(buf, key, kpt, m, n - 1);
      var j := n - 1;
      assert Xor(buf[m + (j - L)], buf[m + (j - L) + L]) == Xor(kpt[j - L], kpt[j - L + L]);
      DecryptStep(buf, kpt, key, m, L, j);
    }
  }

  /** The phased key decrypts the first `L` bytes at offset `m` to those of the fragment. */
  lemma PhaseKeyDecryptsHead(buf: seq<byte>, kpt: seq<byte>, m: nat, L: nat)
    requires 0 < L && m + L <= |buf| && L <= |kpt|
    ensures |PhaseKey(buf, kpt, m, L)| == L
    ensures DecryptsTo(buf, PhaseKey(buf, kpt, m, L), kpt, m, L)
  {
    var key := PhaseKey(buf, kpt, m, L);
    PhaseKeyAt(buf, kpt, m, L, 0);
    forall j | 0 <= j < L
      ensures Xor(buf[m + j], KeyAt(key, m + j)) == kpt[j]
    {
      PhaseKeyAt(buf, kpt, m, L, j);
      XorSolve(buf[m + j], kpt[j]);
    }
  }

  /** At a match, the fragment decrypts correctly under the phased key. */
  lemma DecryptsAtMatch(buf: seq<byte>, kpt: seq<byte>, m: nat, L: nat)
    requires 0 < L && IsMatch(buf, kpt, m, L)
    ensures m + |kpt| <= |buf| && |PhaseKey(buf, kpt, m, L)| == L
    ensures DecryptsTo(buf, PhaseKey(buf, kpt, m, L), kpt, m, |kpt|)
  {
    MatchDiffs(buf, kpt, m, L);
    PhaseKeyDecryptsHead(buf, kpt, m, L);
    DecryptsFrom(buf, PhaseKey(buf, kpt, m, L), kpt, m, |kpt|);
  }

  /** A key that decrypts the fragment at offset `m` makes it appear there in the plaintext. */
  lemma CryptWindow(buf: seq<byte>, key: seq<byte>, kpt: seq<byte>, m: nat)
    requires |key| > 0 && m + |kpt| <= |buf| && DecryptsTo(buf, key, kpt, m, |kpt|)
    ensures Crypt(buf, key)[m .. m + |kpt|] == kpt
  {
    var c := Crypt(buf, key);
    forall j | 0 <= j < |kpt|
      ensures c[m .. m + |kpt|][j] == kpt[j]
    {
      CryptAt(buf, key, m + j);
    }
  }

  /** The payoff of the attack: the key recovered at a match decrypts the fragment at that offset. */
  lemma PhaseKeyDecrypts(buf: seq<byte>, kpt: seq<byte>, m: nat, L: nat)
    requires 0 < L && IsMatch(buf, kpt, m, L)
    ensures m + |kpt| <= |buf|
    ensures Crypt(buf, PhaseKey(buf, kpt, m, L))[m .. m + |kpt|] == kpt
  {
    DecryptsAtMatch(buf, kpt, m, L);
    CryptWindow(buf, PhaseKey(buf, kpt, m, L), kpt, m);
  }

  // ---------------------------------------------------------------------
  // xorattack_kpt: the candidate sequence

  /** A yielded `(plaintext, key, offset)` triple. */
  datatype Candidate = Candidate(plaintext: seq<byte>, key: seq<byte>, offset: nat)

  /** The candidates yielded so far and the set `keys` of keys already yielded. */
  datatype AttackState = AttackState(found: seq<Candidate>, seen: set<seq<byte>>)

  /** The candidate built at match `m`: the whole buffer decrypted under the phased key. */
  function MatchCandidate(buf: seq<byte>, kpt: seq<byte>, m: nat, L: nat): Candidate
    requires 0 < L <= |kpt| && m + L <= |buf|
  {
    var key := PhaseKey(buf, kpt, m, L);
    Candidate(Crypt(buf, key), key, m)
  }

  /** The attack for one fragment: a candidate per match, in ascending order of offset. */
  function FragmentCandidates(buf: seq<byte>, kpt: seq<byte>, L: nat): (r: seq<Candidate>)
    requires 0 < L <= |kpt|
    ensures |r| == |FragmentMatches(buf, kpt, L)|
  {
    var ms := FragmentMatches(buf, kpt, L);
    seq(|ms|, a requires 0 <= a < |ms| => MatchCandidate(buf, kpt, ms[a], L))
  }

  /** The candidates of every fragment that is not skipped, before dedup. */
  function AllCandidates(buf: seq<byte>, kpts: seq<seq<byte>>, L: nat, mindiffs: nat): seq<Candidate>
    requires L > 0
    decreases |kpts|
  {
    if kpts == [] then []
    else
      var kpt := kpts[|kpts| - 1];
      AllCandidates(buf, kpts[..|kpts| - 1], L, mindiffs)
        + (if |kpt| < L + mindiffs then [] else FragmentCandidates(buf, kpt, L))
  }

  /** Yield a candidate unless its key was yielded before. */
  function DedupStep(st: AttackState, c: Candidate): AttackState
  {
    if c.key in st.seen then st
    else AttackState(st.found + [c], st.seen + {c.key})
  }

  /** The dedup step over a sequence of candidates, taken in order. */
  function Dedup(st: AttackState, cs: seq<Candidate>): AttackState
    decreases |cs|
  {
    if cs == [] then st
    else DedupStep(Dedup(st, cs[..|cs| - 1]), cs[|cs| - 1])
  }

  /** The generator's output: the deduplicated candidates of all fragments. */
  function Attack(buf: seq<byte>, kpts: seq<seq<byte>>, L: nat, mindiffs: nat): AttackState
    requires L > 0
  {
    Dedup(AttackState([], {}), AllCandidates(buf, kpts, L, mindiffs))
  }

  // ---------------------------------------------------------------------
  // xorattack_kpt: the key length

  /** Key-length detection looks at the first MiB of the ciphertext only. */
  const DetectLimit: nat := 1024 * 1024

  function DetectionPrefix(buf: seq<byte>): seq<byte>
  {
    if |buf| <= DetectLimit then buf else buf[..DetectLimit]
  }

  /**
   * The key length is usable: a given one is positive (a zero one divides
   * by zero in `match % keylen`), and a detected one exists (`xordiff` of
   * `None` raises), which needs a non-empty ciphertext (`keylen_ioc`
   * divides by its length).
   */
  predicate KeyLengthKnown(buf: seq<byte>, keylen: Option<int>)
  {
    if keylen.Some? then keylen.value > 0
    else |buf| > 0 && SmallestKeyLen(DetectionPrefix(buf), ShiftLo, ShiftHi, LimitNum, LimitDen).Some?
  }

  /** The key length the attack works with: the given one, or the detected one. */
  function KeyLength(buf: seq<byte>, keylen: Option<int>): (L: nat)
    requires KeyLengthKnown(buf, keylen)
    ensures L > 0
    ensures keylen.Some? ==> L == keylen.value
    ensures keylen.None? ==> Qualifies(DetectionPrefix(buf), L, LimitNum, LimitDen)
  {
    if keylen.Some? then keylen.value
    else SmallestKeyLen(DetectionPrefix(buf), ShiftLo, ShiftHi, LimitNum, LimitDen).value
  }

  // ---------------------------------------------------------------------
  // xorattack_kpt: what the candidate sequence satisfies

  /** The keys of a sequence of candidates. */
  function KeysOf(found: seq<Candidate>): set<seq<byte>>
    decreases |found|
  {
    if found == [] then {} else KeysOf(found[..|found| - 1]) + {found[|found| - 1].key}
  }

  lemma {:induction false} KeysOfContains(found: seq<Candidate>, i: nat)
    requires i < |found|
    ensures found[i].key in KeysOf(found)
    decreases |found|
  {
    if i < |found| - 1 {
      KeysOfContains(found[..|found| - 1], i);
    }
  }

  lemma KeysOfSnoc(found: seq<Candidate>, c: Candidate)
    ensures KeysOf(found + [c]) == KeysOf(found) + {c.key}
  {
    assert (found + [c])[..|found|] == found;
  }

  /** No key occurs twice among the candidates. */
  predicate DistinctKeys(found: seq<Candidate>)
  {
    forall i, j :: 0 <= i < j < |found| ==> found[i].key != found[j].key
  }

  /** No key occurs twice, and `seen` holds exactly the keys yielded. */
  predicate Consistent(st: AttackState)
  {
    DistinctKeys(st.found) && st.seen == KeysOf(st.found)
  }

  /** One dedup step keeps the state consistent, only appends, and leaves the key seen. */
  lemma DedupStepConsistent(st: AttackState, c: Candidate)
    requires Consistent(st)
    ensures var r := DedupStep(st, c);
      && Consistent(r)
      && st.seen <= r.seen
      && c.key in r.seen
      && (if c.key in st.seen then r == st else r.found == st.found + [c])
  {
    if c.key !in st.seen {
      KeysOfSnoc(st.found, c);
      forall i | 0 <= i < |st.found|
        ensures st.found[i].key != c.key
      {
        KeysOfContains(st.found, i);
      }
    }
  }

  lemma DedupSnoc(st: AttackState, cs: seq<Candidate>, c: Candidate)
    ensures Dedup(st, cs + [c]) == DedupStep(Dedup(st, cs), c)
  {
    assert (cs + [c])[..|cs|] == cs;
  }

  /** Dedup keeps the state consistent, and what was seen stays seen. */
  lemma {:induction false} DedupConsistent(st: AttackState, cs: seq<Candidate>)
    requires Consistent(st)
    ensures Consistent(Dedup(st, cs)) && st.seen <= Dedup(st, cs).seen
    decreases |cs|
  {
    if cs != [] {
      DedupConsistent(st, cs[..|cs| - 1]);
      DedupStepConsistent(Dedup(st, cs[..|cs| - 1]), cs[|cs| - 1]);
    }
  }

  /** Something in a prefix of `s` is in `s`. */
  lemma InPrefix<T>(s: seq<T>, n: nat, x: T)
    requires n <= |s| && x in s[..n]
    ensures x in s
  {
    var a :| 0 <= a < n && s[..n][a] == x;
    assert s[a] == x;
  }

  /** Dedup only appends, and what it appends is taken from `cs`. */
  lemma {:induction false} DedupAppends(st: AttackState, cs: seq<Candidate>)
    ensures |st.found| <= |Dedup(st, cs).found|
    ensures Dedup(st, cs).found[..|st.found|] == st.found
    ensures forall i :: |st.found| <= i < |Dedup(st, cs).found| ==> Dedup(st, cs).found[i] in cs
    decreases |cs|
  {
    if cs != [] {
      var init, c := cs[..|cs| - 1], cs[|cs| - 1];
      DedupAppends(st, init);
      var p := Dedup(st, init);
      var r := Dedup(st, cs);
      assert r == DedupStep(p, c);
      forall i | |st.found| <= i < |r.found|
        ensures r.found[i] in cs
      {
        if i < |p.found| {
          assert r.found[i] == p.found[i];
          InPrefix(cs, |cs| - 1, p.found[i]);
        } else {
          assert r.found[i] == c;
        }
      }
      if r != p {
        assert r.found[..|st.found|] == p.found[..|st.found|];
      }
    }
  }

  /** After dedup the key of every candidate of `cs` has been seen. */
  lemma {:induction false} DedupSeesAll(st: AttackState, cs: seq<Candidate>)
    ensures st.seen <= Dedup(st, cs).seen
    ensures forall a :: 0 <= a < |cs| ==> cs[a].key in Dedup(st, cs).seen
    decreases |cs|
  {
    if cs != [] {
      var init, c := cs[..|cs| - 1], cs[|cs| - 1];
      DedupSeesAll(st, init);
      var p := Dedup(st, init);
      var r := Dedup(st, cs);
      assert r == DedupStep(p, c);
      assert p.seen <= r.seen && c.key in r.seen;
      forall a | 0 <= a < |cs|
        ensures cs[a].key in r.seen
      {
        if a < |init| {
          assert init[a] == cs[a];
        }
      }
    }
  }

  /** No candidate before position `a` of `cs` has the key of candidate `a`. */
  predicate FirstWithKey(cs: seq<Candidate>, a: nat)
    requires a < |cs|
  {
    forall b :: 0 <= b < a ==> cs[b].key != cs[a].key
  }

  /** `x` occurs in `cs` at a position where its key occurs for the first time. */
  predicate FirstOccurrence(cs: seq<Candidate>, x: Candidate)
  {
    exists a :: 0 <= a < |cs| && cs[a] == x && FirstWithKey(cs, a)
  }

  lemma FirstOccurrenceSnoc(init: seq<Candidate>, c: Candidate, x: Candidate)
    requires FirstOccurrence(init, x)
    ensures FirstOccurrence(init + [c], x)
  {
    var cs := init + [c];
    var a :| 0 <= a < |init| && init[a] == x && FirstWithKey(init, a);
    forall b | 0 <= b < a
      ensures cs[b].key != cs[a].key
    {
      assert cs[b] == init[b];
    }
    assert cs[a] == x && FirstWithKey(cs, a);
  }

  lemma FirstOccurrenceNew(init: seq<Candidate>, c: Candidate, seen: set<seq<byte>>)
    requires forall b :: 0 <= b < |init| ==> init[b].key in seen
    requires c.key !in seen
    ensures FirstOccurrence(init + [c], c)
  {
    var cs := init + [c];
    var a := |init|;
    forall b | 0 <= b < a
      ensures cs[b].key != cs[a].key
    {
      assert cs[b] == init[b];
    }
    assert cs[a] == c && FirstWithKey(cs, a);
  }

  /**
   * Dedup yields each candidate at the first position where its key occurs:
   * no earlier candidate of `cs` has the same key.
   */
  lemma {:induction false} DedupFirst(cs: seq<Candidate>)
    ensures forall i :: 0 <= i < |Dedup(AttackState([], {}), cs).found| ==>
      FirstOccurrence(cs, Dedup(AttackState([], {}), cs).found[i])
    decreases |cs|
  {
    if cs != [] {
      var init, c := cs[..|cs| - 1], cs[|cs| - 1];
      assert cs == init + [c];
      DedupFirst(init);
      var p := Dedup(AttackState([], {}), init);
      var r := Dedup(AttackState([], {}), cs);
      assert r == DedupStep(p, c);
      forall i | 0 <= i < |r.found|
        ensures FirstOccurrence(cs, r.found[i])
      {
        if i < |p.found| {
          assert r.found[i] == p.found[i];
          FirstOccurrenceSnoc(init, c, p.found[i]);
        } else {
          assert r.found[i] == c && c.key !in p.seen;
          DedupSeesAll(AttackState([], {}), init);
          FirstOccurrenceNew(init, c, p.seen);
        }
      }
    }
  }

  /** Candidate `c` is a decryption of `buf` under a key of length `L`. */
  predicate Decryption(buf: seq<byte>, L: nat, c: Candidate)
  {
    |c.key| == L && c.plaintext == Crypt(buf, c.key)
  }

  /** Candidate `c`'s plaintext holds fragment `kpt` at its offset. */
  predicate Explains(c: Candidate, kpt: seq<byte>)
  {
    c.offset + |kpt| <= |c.plaintext| && c.plaintext[c.offset .. c.offset + |kpt|] == kpt
  }

  /** A key that decrypts the fragment at offset `m` gives a candidate that explains it. */
  lemma CandidateSound(buf: seq<byte>, kpt: seq<byte>, key: seq<byte>, m: nat)
    requires m + |kpt| <= |buf| && Crypt(buf, key)[m .. m + |kpt|] == kpt
    ensures Decryption(buf, |key|, Candidate(Crypt(buf, key), key, m))
    ensures Explains(Candidate(Crypt(buf, key), key, m), kpt)
  {
  }

  /** The candidate of a match decrypts the buffer and shows the fragment at the match. */
  lemma MatchCandidateSound(buf: seq<byte>, kpt: seq<byte>, m: nat, L: nat)
    requires 0 < L && IsMatch(buf, kpt, m, L)
    ensures Decryption(buf, L, MatchCandidate(buf, kpt, m, L))
    ensures Explains(MatchCandidate(buf, kpt, m, L), kpt)
  {
    var key := PhaseKey(buf, kpt, m, L);
    PhaseKeyDecrypts(buf, kpt, m, L);
    CandidateSound(buf, kpt, key, m);
  }

  /** Candidate `a` of a fragment is the candidate of its `a`-th match. */
  lemma FragmentCandidateAt(buf: seq<byte>, kpt: seq<byte>, L: nat, a: nat)
    requires 0 < L <= |kpt| && a < |FragmentMatches(buf, kpt, L)|
    ensures |FragmentCandidates(buf, kpt, L)| == |FragmentMatches(buf, kpt, L)|
    ensures IsMatch(buf, kpt, FragmentMatches(buf, kpt, L)[a], L)
    ensures FragmentCandidates(buf, kpt, L)[a] == MatchCandidate(buf, kpt, FragmentMatches(buf, kpt, L)[a], L)
  {
  }

  /** Every candidate of a fragment decrypts the buffer and shows the fragment. */
  lemma FragmentCandidatesSound(buf: seq<byte>, kpt: seq<byte>, L: nat, c: Candidate)
    requires 0 < L <= |kpt| && c in FragmentCandidates(buf, kpt, L)
    ensures Decryption(buf, L, c) && Explains(c, kpt)
  {
    var cs := FragmentCandidates(buf, kpt, L);
    var a :| 0 <= a < |cs| && cs[a] == c;
    FragmentCandidateAt(buf, kpt, L, a);
    MatchCandidateSound(buf, kpt, FragmentMatches(buf, kpt, L)[a], L);
  }

  /** Every candidate before dedup is sound for some fragment that was not skipped. */
  lemma {:induction false} AllCandidatesSound(buf: seq<byte>, kpts: seq<seq<byte>>, L: nat, mindiffs: nat, c: Candidate)
    requires L > 0 && c in AllCandidates(buf, kpts, L, mindiffs)
    ensures Decryption(buf, L, c)
    ensures exists k :: k in kpts && |k| >= L + mindiffs && Explains(c, k)
    decreases |kpts|
  {
    var init, kpt := kpts[..|kpts| - 1], kpts[|kpts| - 1];
    if c in AllCandidates(buf, init, L, mindiffs) {
      AllCandidatesSound(buf, init, L, mindiffs, c);
      var k :| k in init && |k| >= L + mindiffs && Explains(c, k);
      var a :| 0 <= a < |init| && init[a] == k;
      assert kpts[a] == k;
    } else {
      assert |kpt| >= L + mindiffs;
      FragmentCandidatesSound(buf, kpt, L, c);
    }
  }

  /** Every match of every fragment that is not skipped contributes its candidate. */
  lemma {:induction false} AllCandidatesComplete(buf: seq<byte>, kpts: seq<seq<byte>>, L: nat, mindiffs: nat, f: nat, a: nat)
    requires L > 0 && f < |kpts| && |kpts[f]| >= L + mindiffs
    requires a < |FragmentMatches(buf, kpts[f], L)|
    ensures MatchCandidate(buf, kpts[f], FragmentMatches(buf, kpts[f], L)[a], L) in AllCandidates(buf, kpts, L, mindiffs)
    decreases |kpts|
  {
    var init := kpts[..|kpts| - 1];
    FragmentCandidateAt(buf, kpts[f], L, a);
    if f < |kpts| - 1 {
      assert init[f] == kpts[f];
      AllCandidatesComplete(buf, init, L, mindiffs, f, a);
    } else {
      var cs := FragmentCandidates(buf, kpts[f], L);
      assert cs[a] in cs;
    }
  }

  /**
   * Soundness and dedup: no key is yielded twice, and every candidate is a
   * decryption under a key of length `L` whose plaintext shows some long
   * enough fragment at the candidate's offset.
   */
  lemma AttackSound(buf: seq<byte>, kpts: seq<seq<byte>>, L: nat, mindiffs: nat)
    requires L > 0
    ensures Consistent(Attack(buf, kpts, L, mindiffs))
    ensures forall c :: c in Attack(buf, kpts, L, mindiffs).found ==>
      Decryption(buf, L, c) && exists k :: k in kpts && |k| >= L + mindiffs && Explains(c, k)
  {
    var cs := AllCandidates(buf, kpts, L, mindiffs);
    DedupConsistent(AttackState([], {}), cs);
    DedupAppends(AttackState([], {}), cs);
    var r := Attack(buf, kpts, L, mindiffs);
    forall c | c in r.found
      ensures Decryption(buf, L, c) && exists k :: k in kpts && |k| >= L + mindiffs && Explains(c, k)
    {
      var i :| 0 <= i < |r.found| && r.found[i] == c;
      AllCandidatesSound(buf, kpts, L, mindiffs, c);
    }
  }

  /** Completeness: every match of every long enough fragment has its phased key yielded. */
  lemma AttackComplete(buf: seq<byte>, kpts: seq<seq<byte>>, L: nat, mindiffs: nat, f: nat, a: nat)
    requires L > 0 && f < |kpts| && |kpts[f]| >= L + mindiffs
    requires a < |FragmentMatches(buf, kpts[f], L)|
    ensures PhaseKey(buf, kpts[f], FragmentMatches(buf, kpts[f], L)[a], L) in KeysOf(Attack(buf, kpts, L, mindiffs).found)
  {
    var cs := AllCandidates(buf, kpts, L, mindiffs);
    AllCandidatesComplete(buf, kpts, L, mindiffs, f, a);
    var c := MatchCandidate(buf, kpts[f], FragmentMatches(buf, kpts[f], L)[a], L);
    var idx :| 0 <= idx < |cs| && cs[idx] == c;
    DedupSeesAll(AttackState([], {}), cs);
    DedupConsistent(AttackState([], {}), cs);
  }

  lemma SnocSlice<T>(xs: seq<T>, ys: seq<T>, t: nat)
    requires t < |ys|
    ensures xs + ys[..t + 1] == (xs + ys[..t]) + [ys[t]]
  {
    assert ys[..t + 1] == ys[..t] + [ys[t]];
  }

  /** Fragment `f` appends its candidates, or none when it is skipped. */
  lemma AllCandidatesSnoc(buf: seq<byte>, kpts: seq<seq<byte>>, L: nat, mindiffs: nat, f: nat)
    requires L > 0 && f < |kpts|
    ensures AllCandidates(buf, kpts[..f + 1], L, mindiffs) == AllCandidates(buf, kpts[..f], L, mindiffs)
      + (if |kpts[f]| < L + mindiffs then [] else FragmentCandidates(buf, kpts[f], L))
  {
    assert kpts[..f + 1][..f] == kpts[..f];
  }

  /**
   * xorattack_kpt: the candidates the generator yields, in order.  The key
   * length is the given one or, when None, the one detected on the first MiB.
   */
  method XorAttackKpt(buf: seq<byte>, kpts: seq<seq<byte>>, keylen: Option<int>, mindiffs: nat)
    returns (cands: seq<Candidate>)
    requires KeyLengthKnown(buf, keylen)
    ensures cands == Attack(buf, kpts, KeyLength(buf, keylen), mindiffs).found
    ensures forall c :: c in cands ==> Decryption(buf, KeyLength(buf, keylen), c)
    ensures forall c :: c in cands ==>
      exists k :: k in kpts && |k| >= KeyLength(buf, keylen) + mindiffs && Explains(c, k)
    ensures DistinctKeys(cands)
  {
    var L: nat;
    if keylen.None? {
      var detected := KeyLenIoc(DetectionPrefix(buf), ShiftLo, ShiftHi, LimitNum, LimitDen);
      L := detected.value;
    } else {
      L := keylen.value;
    }
    var bufD := XorDiff(buf, L);
    var keys: set<seq<byte>> := {};
    cands := [];
    ghost var start := AttackState([], {});
    for f := 0 to |kpts|
      invariant AttackState(cands, keys) == Dedup(start, AllCandidates(buf, kpts[..f], L, mindiffs))
    {
      var kpt := kpts[f];
      AllCandidatesSnoc(buf, kpts, L, mindiffs, f);
      if |kpt| < L + mindiffs {
        assert AllCandidates(buf, kpts[..f], L, mindiffs) + [] == AllCandidates(buf, kpts[..f], L, mindiffs);
        continue;
      }
      ghost var before := AllCandidates(buf, kpts[..f], L, mindiffs);
      ghost var fc := FragmentCandidates(buf, kpt, L);
      var kptD := XorDiff(kpt, L);
      var matches := MatchOffsets(bufD, kptD, |bufD|);
      assert matches == FragmentMatches(buf, kpt, L);
      assert before + fc[..0] == before;
      for t := 0 to |matches|
        invariant AttackState(cands, keys) == Dedup(start, before + fc[..t])
      {
        var offset := matches[t];
        var key := RecoverKey(buf, kpt, offset, L);
        FragmentCandidateAt(buf, kpt, L, t);
        assert fc[t] == Candidate(Crypt(buf, key), key, offset);
        SnocSlice(before, fc, t);
        DedupSnoc(start, before + fc[..t], fc[t]);
        ghost var prev := AttackState(cands, keys);
        if key !in keys {
          keys := keys + {key};
          var pt := XorCrypt(buf, key);
          cands := cands + [Candidate(pt, key, offset)];
        }
        assert AttackState(cands, keys) == DedupStep(prev, fc[t]);
      }
      assert fc[..|matches|] == fc;
      assert AllCandidates(buf, kpts[..f + 1], L, mindiffs) == before + fc;
    }
    assert kpts[..|kpts|] == kpts;
    AttackSound(buf, kpts, L, mindiffs);
  }

  // ---------------------------------------------------------------------
  // The doctests, on their own bytes

  /** xorcrypt's doctests: `b'1234'` and `b'12345'` under the key `b'12'`. */
  lemma CryptDoctest()
    ensures Crypt([0x31, 0x32, 0x33, 0x34], [0x31, 0x32]) == [0x00, 0x00, 0x02, 0x06]
    ensures Crypt([0x31, 0x32, 0x33, 0x34, 0x35], [0x31, 0x32]) == [0x00, 0x00, 0x02, 0x06, 0x04]
  {
    CryptExamples(0x31, 0x32, 0x33, 0x34, 0x35);
    Xor3331();
    Xor3432();
    Xor3531();
  }

  /** xordiff's doctest: `b'abcdefg'` at period 3. */
  lemma DiffDoctest()
    ensures Diff([0x61, 0x62, 0x63, 0x64, 0x65, 0x66, 0x67], 3) == [0x05, 0x07, 0x05, 0x03]
  {
    DiffExamples([], 0, 0x61, 0x62, 0x63, 0x64, 0x65, 0x66, 0x67);
    Xor6164();
    Xor6265();
    Xor6366();
    Xor6467();
  }


  /** The ciphertext of keylen_ioc's doctest, `b'abxabcabcwbcabc'`. */
  function KeyLenSample(): seq<byte>
  {
    [0x61, 0x62, 0x78, 0x61, 0x62, 0x63, 0x61, 0x62, 0x63, 0x77, 0x62, 0x63, 0x61, 0x62, 0x63]
  }

  /** keylen_ioc's doctest: the sample's key length is 3. */
  lemma KeyLenDoctest()
    ensures SmallestKeyLen(KeyLenSample(), ShiftLo, ShiftHi, LimitNum, LimitDen) == Some(3)
  {
    DetectsThree(KeyLenSample(), 0);
  }

  /** The ciphertext of xorattack_kpt's doctest, `b'abxabcabcwbcab'`. */
  function AttackSample(): seq<byte>
  {
    [0x61, 0x62, 0x78, 0x61, 0x62, 0x63, 0x61, 0x62, 0x63, 0x77, 0x62, 0x63, 0x61, 0x62]
  }

  /** The doctest's known plaintexts, `b'wrong'` and `b'\x1b\x00\x00\x1b\x16'`. */
  function SampleFragments(): seq<seq<byte>>
  {
    [[0x77, 0x72, 0x6f, 0x6e, 0x67], [0x1b, 0x00, 0x00, 0x1b, 0x16]]
  }

  /** Detection on the attack sample finds key length 3. */
  lemma AttackSampleKeyLength()
    ensures KeyLengthKnown(AttackSample(), None)
    ensures KeyLength(AttackSample(), None) == 3
  {
    assert DetectionPrefix(AttackSample()) == AttackSample();
    DetectsThree(AttackSample(), 0);
  }

  /** The differential of the attack sample at period 3. */
  lemma AttackSampleDiff()
    ensures Diff(AttackSample(), 3) == [0x00, 0x00, 0x1b, 0x00, 0x00, 0x00, 0x16, 0x00, 0x00, 0x16, 0x00]
  {
    Xor7863();
    Xor6177();
    Xor7761();
    XorSelf(0x61);
    XorSelf(0x62);
    XorSelf(0x63);
    var ct := AttackSample();
    var d := Diff(ct, 3);
    Eleven(d);
    assert d[0] == Xor(0x61, 0x61) && d[1] == Xor(0x62, 0x62) && d[2] == Xor(0x78, 0x63);
    assert d[3] == Xor(0x61, 0x61) && d[4] == Xor(0x62, 0x62) && d[5] == Xor(0x63, 0x63);
    assert d[6] == Xor(0x61, 0x77) && d[7] == Xor(0x62, 0x62) && d[8] == Xor(0x63, 0x63);
    assert d[9] == Xor(0x77, 0x61) && d[10] == Xor(0x62, 0x62);
  }

  /** A sequence of eleven elements is the display of its elements. */
  lemma Eleven<T>(s: seq<T>)
    requires |s| == 11
    ensures s == [s[0], s[1], s[2], s[3], s[4], s[5], s[6], s[7], s[8], s[9], s[10]]
  {
  }

  /** The differentials of the two fragments at period 3. */
  lemma SampleFragmentDiffs()
    ensures Diff(SampleFragments()[0], 3) == [0x19, 0x15]
    ensures Diff(SampleFragments()[1], 3) == [0x00, 0x16]
  {
    Xor776e();
    Xor7267();
    XorSelf(0x1b);
    XorZero(0x16);
  }

  /** `d` holds the two bytes `p, q` at offset `m`. */
  lemma StartsAtPair(d: seq<byte>, p: byte, q: byte, m: nat)
    ensures StartsAt(d, [p, q], m) <==> m + 2 <= |d| && d[m] == p && d[m + 1] == q
  {
    if m + 2 <= |d| && d[m] == p && d[m + 1] == q {
      assert d[m .. m + 2] == [p, q];
    }
  }

  /** A strictly ascending sequence holding exactly `a` and `b`, with `a < b`, is `[a, b]`. */
  lemma AscendingPair(r: seq<nat>, a: nat, b: nat)
    requires a < b
    requires forall x, y :: 0 <= x < y < |r| ==> r[x] < r[y]
    requires forall m: nat :: m in r <==> m == a || m == b
    ensures r == [a, b]
  {
    assert a in r && b in r;
    assert r[0] in r && r[|r| - 1] in r;
    assert r[0] == a && r[|r| - 1] == b;
    assert r[1] in r;
    assert |r| == 2;
  }

  /** `b'wrong'` does not occur in the sample. */
  lemma SampleWrongMisses()
    ensures FragmentMatches(AttackSample(), SampleFragments()[0], 3) == []
  {
    AttackSampleDiff();
    SampleFragmentDiffs();
    var r := FragmentMatches(AttackSample(), SampleFragments()[0], 3);
    if r != [] {
      StartsAtPair(Diff(AttackSample(), 3), 0x19, 0x15, r[0]);
      assert false;
    }
  }

  /** The differential `[0x00, 0x16]` of the second fragment sits at offsets 5 and 8 only. */
  lemma SampleFragmentAt(m: nat)
    ensures StartsAt(Diff(AttackSample(), 3), Diff(SampleFragments()[1], 3), m) <==> m == 5 || m == 8
  {
    AttackSampleDiff();
    SampleFragmentDiffs();
    StartsAtPair(Diff(AttackSample(), 3), 0x00, 0x16, m);
  }

  /** The second fragment occurs at offsets 5 and 8. */
  lemma SampleFragmentMatches()
    ensures FragmentMatches(AttackSample(), SampleFragments()[1], 3) == [5, 8]
  {
    var r := FragmentMatches(AttackSample(), SampleFragments()[1], 3);
    forall m: nat
      ensures m in r <==> m == 5 || m == 8
    {
      SampleFragmentAt(m);
    }
    AscendingPair(r, 5, 8);
  }

  /** The keys recovered at the two matches, rotated to phase 0: `b'abx'` and `b'wbx'`. */
  lemma SampleKeys()
    ensures PhaseKey(AttackSample(), SampleFragments()[1], 5, 3) == [0x61, 0x62, 0x78]
    ensures PhaseKey(AttackSample(), SampleFragments()[1], 8, 3) == [0x77, 0x62, 0x78]
  {
    Xor631b();
    XorZero(0x61);
    XorZero(0x62);
    XorZero(0x77);
    var ct, kpt := AttackSample(), SampleFragments()[1];
    assert RawKey(ct, kpt, 5, 3) == [0x78, 0x61, 0x62];
    assert RawKey(ct, kpt, 8, 3) == [0x78, 0x77, 0x62];
  }

  /** The sample is five blocks of the key length: `abx abc abc wbc ab`. */
  lemma SampleDecrypts(key: seq<byte>)
    requires |key| == 3
    ensures Crypt(AttackSample(), key) ==
      Crypt([0x61, 0x62, 0x78], key) + (Crypt([0x61, 0x62, 0x63], key) + (Crypt([0x61, 0x62, 0x63], key)
      + (Crypt([0x77, 0x62, 0x63], key) + Crypt([0x61, 0x62], key))))
  {
    var b0, b1, b3, b4 := [0x61, 0x62, 0x78], [0x61, 0x62, 0x63], [0x77, 0x62, 0x63], [0x61, 0x62];
    SampleBlocks();
    CryptBlock(b0, b1 + (b1 + (b3 + b4)), key);
    CryptBlock(b1, b1 + (b3 + b4), key);
    CryptBlock(b1, b3 + b4, key);
    CryptBlock(b3, b4, key);
  }

  /** The sample ciphertext cut into blocks of the key length. */
  lemma SampleBlocks()
    ensures AttackSample() ==
      [0x61, 0x62, 0x78] + ([0x61, 0x62, 0x63] + ([0x61, 0x62, 0x63] + ([0x77, 0x62, 0x63] + [0x61, 0x62])))
  {
    var c := [0x61, 0x62, 0x78] + ([0x61, 0x62, 0x63] + ([0x61, 0x62, 0x63] + ([0x77, 0x62, 0x63] + [0x61, 0x62])));
    Fourteen(c);
  }

  /** One block of at most the key length is encrypted byte against key byte. */
  lemma CryptShortBlock(x: seq<byte>, key: seq<byte>)
    requires 0 < |x| <= |key|
    ensures Crypt(x, key) == seq(|x|, i requires 0 <= i < |x| => Xor(x[i], key[i]))
  {
  }

  /** The plaintext under `b'abx'`, which starts with two zero bytes. */
  lemma SamplePlaintextAbx()
    ensures Crypt(AttackSample(), [0x61, 0x62, 0x78]) ==
      [0x00, 0x00, 0x00, 0x00, 0x00, 0x1b, 0x00, 0x00, 0x1b, 0x16, 0x00, 0x1b, 0x00, 0x00]
  {
    var key := [0x61, 0x62, 0x78];
    Xor6378();
    Xor7761();
    XorSelf(0x61);
    XorSelf(0x62);
    XorSelf(0x78);
    SampleDecrypts(key);
    CryptShortBlock([0x61, 0x62, 0x78], key);
    CryptShortBlock([0x61, 0x62, 0x63], key);
    CryptShortBlock([0x77, 0x62, 0x63], key);
    CryptShortBlock([0x61, 0x62], key);
    var p := Crypt(AttackSample(), key);
    Fourteen(p);
    assert p[0] == 0 && p[1] == 0 && p[2] == 0 && p[3] == 0 && p[4] == 0;
    assert p[5] == 0x1b && p[6] == 0 && p[7] == 0 && p[8] == 0x1b && p[9] == 0x16;
    assert p[10] == 0 && p[11] == 0x1b && p[12] == 0 && p[13] == 0;
  }

  /** The plaintext under `b'wbx'`, the one the doctest prints. */
  lemma SamplePlaintextWbx()
    ensures Crypt(AttackSample(), [0x77, 0x62, 0x78]) ==
      [0x16, 0x00, 0x00, 0x16, 0x00, 0x1b, 0x16, 0x00, 0x1b, 0x00, 0x00, 0x1b, 0x16, 0x00]
  {
    var key := [0x77, 0x62, 0x78];
    Xor6378();
    Xor6177();
    XorSelf(0x62);
    XorSelf(0x77);
    XorSelf(0x78);
    SampleDecrypts(key);
    CryptShortBlock([0x61, 0x62, 0x78], key);
    CryptShortBlock([0x61, 0x62, 0x63], key);
    CryptShortBlock([0x77, 0x62, 0x63], key);
    CryptShortBlock([0x61, 0x62], key);
    var p := Crypt(AttackSample(), key);
    Fourteen(p);
    assert p[0] == 0x16 && p[1] == 0 && p[2] == 0 && p[3] == 0x16 && p[4] == 0;
    assert p[5] == 0x1b && p[6] == 0x16 && p[7] == 0 && p[8] == 0x1b && p[9] == 0;
    assert p[10] == 0 && p[11] == 0x1b && p[12] == 0x16 && p[13] == 0;
  }

  /** A sequence of fourteen elements is the display of its elements. */
  lemma Fourteen<T>(s: seq<T>)
    requires |s| == 14
    ensures s == [s[0], s[1], s[2], s[3], s[4], s[5], s[6], s[7], s[8], s[9], s[10], s[11], s[12], s[13]]
  {
  }

  /** Two candidates with different keys both pass dedup, in order. */
  lemma DedupDistinctPair(c0: Candidate, c1: Candidate)
    requires c0.key != c1.key
    ensures Dedup(AttackState([], {}), [c0, c1]).found == [c0, c1]
  {
    var st := AttackState([], {});
    assert [c0][..0] == [];
    assert Dedup(st, [c0]) == DedupStep(st, c0) == AttackState([c0], {c0.key});
    assert [c0, c1][..1] == [c0];
    assert Dedup(st, [c0, c1]) == DedupStep(AttackState([c0], {c0.key}), c1);
  }

  /** The candidate at offset 5: key `b'abx'`, plaintext starting with two zero bytes. */
  lemma SampleCandidateAbx()
    ensures MatchCandidate(AttackSample(), SampleFragments()[1], 5, 3) ==
      Candidate([0x00, 0x00, 0x00, 0x00, 0x00, 0x1b, 0x00, 0x00, 0x1b, 0x16, 0x00, 0x1b, 0x00, 0x00], [0x61, 0x62, 0x78], 5)
  {
    SampleKeys();
    SamplePlaintextAbx();
  }

  /** The candidate at offset 8: key `b'wbx'` and the plaintext the doctest prints. */
  lemma SampleCandidateWbx()
    ensures MatchCandidate(AttackSample(), SampleFragments()[1], 8, 3) ==
      Candidate([0x16, 0x00, 0x00, 0x16, 0x00, 0x1b, 0x16, 0x00, 0x1b, 0x00, 0x00, 0x1b, 0x16, 0x00], [0x77, 0x62, 0x78], 8)
  {
    SampleKeys();
    SamplePlaintextWbx();
  }

  /** Before dedup: no candidate from `b'wrong'`, then one per match of the second fragment. */
  lemma SampleCandidates()
    ensures |AllCandidates(AttackSample(), SampleFragments(), 3, 2)| == 2
    ensures AllCandidates(AttackSample(), SampleFragments(), 3, 2)[0] == MatchCandidate(AttackSample(), SampleFragments()[1], 5, 3)
    ensures AllCandidates(AttackSample(), SampleFragments(), 3, 2)[1] == MatchCandidate(AttackSample(), SampleFragments()[1], 8, 3)
  {
    SampleWrongMisses();
    SampleFragmentMatches();
    CandidatesOfSecond(AttackSample(), SampleFragments(), 3, 2, 5, 8);
  }

  /**
   * Two fragments, long enough, of which only the second matches, at `m1`
   * and `m2`: the candidates are those two matches.
   */
  lemma CandidatesOfSecond(buf: seq<byte>, kpts: seq<seq<byte>>, L: nat, mindiffs: nat, m1: nat, m2: nat)
    requires |kpts| == 2 && 0 < L && L + mindiffs <= |kpts[0]| && L + mindiffs <= |kpts[1]|
    requires FragmentMatches(buf, kpts[0], L) == []
    requires FragmentMatches(buf, kpts[1], L) == [m1, m2]
    requires m1 + L <= |buf| && m2 + L <= |buf|
    ensures |AllCandidates(buf, kpts, L, mindiffs)| == 2
    ensures AllCandidates(buf, kpts, L, mindiffs)[0] == MatchCandidate(buf, kpts[1], m1, L)
    ensures AllCandidates(buf, kpts, L, mindiffs)[1] == MatchCandidate(buf, kpts[1], m2, L)
  {
    FirstFragmentMisses(buf, kpts, L, mindiffs);
    SecondFragmentCandidates(buf, kpts, L, mindiffs);
    FragmentCandidatesPair(buf, kpts[1], L, m1, m2);
  }

  /** A first fragment that never matches contributes no candidate. */
  lemma FirstFragmentMisses(buf: seq<byte>, kpts: seq<seq<byte>>, L: nat, mindiffs: nat)
    requires |kpts| > 0 && 0 < L <= |kpts[0]|
    requires FragmentMatches(buf, kpts[0], L) == []
    ensures AllCandidates(buf, kpts[..1], L, mindiffs) == []
  {
    assert |FragmentCandidates(buf, kpts[0], L)| == 0;
    AllCandidatesSnoc(buf, kpts, L, mindiffs, 0);
    assert kpts[..0] == [];
  }

  /** After a first fragment without candidates, those of the second are all there are. */
  lemma SecondFragmentCandidates(buf: seq<byte>, kpts: seq<seq<byte>>, L: nat, mindiffs: nat)
    requires |kpts| == 2 && 0 < L && L + mindiffs <= |kpts[1]|
    requires AllCandidates(buf, kpts[..1], L, mindiffs) == []
    ensures AllCandidates(buf, kpts, L, mindiffs) == FragmentCandidates(buf, kpts[1], L)
  {
    AllCandidatesSnoc(buf, kpts, L, mindiffs, 1);
    assert kpts[..2] == kpts;
  }

  /** The candidates of a fragment that matches at exactly two offsets. */
  lemma FragmentCandidatesPair(buf: seq<byte>, kpt: seq<byte>, L: nat, m1: nat, m2: nat)
    requires 0 < L <= |kpt|
    requires FragmentMatches(buf, kpt, L) == [m1, m2]
    requires m1 + L <= |buf| && m2 + L <= |buf|
    ensures |FragmentCandidates(buf, kpt, L)| == 2
    ensures FragmentCandidates(buf, kpt, L)[0] == MatchCandidate(buf, kpt, m1, L)
    ensures FragmentCandidates(buf, kpt, L)[1] == MatchCandidate(buf, kpt, m2, L)
  {
  }

  /**
   * xorattack_kpt's doctest: with the key length detected and `mindiffs`
   * 2, the generator yields key `b'abx'` at offset 5, whose plaintext the
   * doctest skips for its two leading zero bytes, then key `b'wbx'` at
   * offset 8 with the plaintext the doctest prints.
   */
  lemma AttackDoctest()
    ensures KeyLengthKnown(AttackSample(), None)
    ensures Attack(AttackSample(), SampleFragments(), KeyLength(AttackSample(), None), 2).found == [
      Candidate([0x00, 0x00, 0x00, 0x00, 0x00, 0x1b, 0x00, 0x00, 0x1b, 0x16, 0x00, 0x1b, 0x00, 0x00], [0x61, 0x62, 0x78], 5),
      Candidate([0x16, 0x00, 0x00, 0x16, 0x00, 0x1b, 0x16, 0x00, 0x1b, 0x00, 0x00, 0x1b, 0x16, 0x00], [0x77, 0x62, 0x78], 8)]
  {
    AttackSampleKeyLength();
    SampleCandidates();
    SampleCandidateAbx();
    SampleCandidateWbx();
    AttackOfPair(AttackSample(), SampleFragments(), 3, 2,
      Candidate([0x00, 0x00, 0x00, 0x00, 0x00, 0x1b, 0x00, 0x00, 0x1b, 0x16, 0x00, 0x1b, 0x00, 0x00], [0x61, 0x62, 0x78], 5),
      Candidate([0x16, 0x00, 0x00, 0x16, 0x00, 0x1b, 0x16, 0x00, 0x1b, 0x00, 0x00, 0x1b, 0x16, 0x00], [0x77, 0x62, 0x78], 8));
  }

  /** Two candidates with different keys are exactly what the attack reports. */
  lemma AttackOfPair(buf: seq<byte>, kpts: seq<seq<byte>>, L: nat, mindiffs: nat, c0: Candidate, c1: Candidate)
    requires L > 0 && c0.key != c1.key
    requires |AllCandidates(buf, kpts, L, mindiffs)| == 2
    requires AllCandidates(buf, kpts, L, mindiffs)[0] == c0 && AllCandidates(buf, kpts, L, mindiffs)[1] == c1
    ensures Attack(buf, kpts, L, mindiffs).found == [c0, c1]
  {
    assert AllCandidates(buf, kpts, L, mindiffs) == [c0, c1];
    DedupDistinctPair(c0, c1);
  }

  // The exclusive ors of the doctests, one pair of bytes at a time: each
  // step reads one more bit of both operands, from the highest down.

  lemma Xor3331()
    ensures Xor(0x33, 0x31) == 0x02
  {
    assert XorBits(0, 0, 1) == 0;
    assert XorBits(0, 0, 2) == 0;
    assert XorBits(1, 1, 3) == 0;
    assert XorBits(3, 3, 4) == 0;
    assert XorBits(6, 6, 5) == 0;
    assert XorBits(12, 12, 6) == 0;
    assert XorBits(25, 24, 7) == 1;
    assert XorBits(51, 49, 8) == 2;
    XorIs(0x33, 0x31, 0x02);
  }

  lemma Xor3432()
    ensures Xor(0x34, 0x32) == 0x06
  {
    assert XorBits(0, 0, 1) == 0;
    assert XorBits(0, 0, 2) == 0;
    assert XorBits(1, 1, 3) == 0;
    assert XorBits(3, 3, 4) == 0;
    assert XorBits(6, 6, 5) == 0;
    assert XorBits(13, 12, 6) == 1;
    assert XorBits(26, 25, 7) == 3;
    assert XorBits(52, 50, 8) == 6;
    XorIs(0x34, 0x32, 0x06);
  }

  lemma Xor3531()
    ensures Xor(0x35, 0x31) == 0x04
  {
    assert XorBits(0, 0, 1) == 0;
    assert XorBits(0, 0, 2) == 0;
    assert XorBits(1, 1, 3) == 0;
    assert XorBits(3, 3, 4) == 0;
    assert XorBits(6, 6, 5) == 0;
    assert XorBits(13, 12, 6) == 1;
    assert XorBits(26, 24, 7) == 2;
    assert XorBits(53, 49, 8) == 4;
    XorIs(0x35, 0x31, 0x04);
  }

  lemma Xor6164()
    ensures Xor(0x61, 0x64) == 0x05
  {
    assert XorBits(0, 0, 1) == 0;
    assert XorBits(1, 1, 2) == 0;
    assert XorBits(3, 3, 3) == 0;
    assert XorBits(6, 6, 4) == 0;
    assert XorBits(12, 12, 5) == 0;
    assert XorBits(24, 25, 6) == 1;
    assert XorBits(48, 50, 7) == 2;
    assert XorBits(97, 100, 8) == 5;
    XorIs(0x61, 0x64, 0x05);
  }

  lemma Xor6265()
    ensures Xor(0x62, 0x65) == 0x07
  {
    assert XorBits(0, 0, 1) == 0;
    assert XorBits(1, 1, 2) == 0;
    assert XorBits(3, 3, 3) == 0;
    assert XorBits(6, 6, 4) == 0;
    assert XorBits(12, 12, 5) == 0;
    assert XorBits(24, 25, 6) == 1;
    assert XorBits(49, 50, 7) == 3;
    assert XorBits(98, 101, 8) == 7;
    XorIs(0x62, 0x65, 0x07);
  }

  lemma Xor6366()
    ensures Xor(0x63, 0x66) == 0x05
  {
    assert XorBits(0, 0, 1) == 0;
    assert XorBits(1, 1, 2) == 0;
    assert XorBits(3, 3, 3) == 0;
    assert XorBits(6, 6, 4) == 0;
    assert XorBits(12, 12, 5) == 0;
    assert XorBits(24, 25, 6) == 1;
    assert XorBits(49, 51, 7) == 2;
    assert XorBits(99, 102, 8) == 5;
    XorIs(0x63, 0x66, 0x05);
  }

  lemma Xor6467()
    ensures Xor(0x64, 0x67) == 0x03
  {
    assert XorBits(0, 0, 1) == 0;
    assert XorBits(1, 1, 2) == 0;
    assert XorBits(3, 3, 3) == 0;
    assert XorBits(6, 6, 4) == 0;
    assert XorBits(12, 12, 5) == 0;
    assert XorBits(25, 25, 6) == 0;
    assert XorBits(50, 51, 7) == 1;
    assert XorBits(100, 103, 8) == 3;
    XorIs(0x64, 0x67, 0x03);
  }

  lemma Xor7863()
    ensures Xor(0x78, 0x63) == 0x1b
  {
    assert XorBits(0, 0, 1) == 0;
    assert XorBits(1, 1, 2) == 0;
    assert XorBits(3, 3, 3) == 0;
    assert XorBits(7, 6, 4) == 1;
    assert XorBits(15, 12, 5) == 3;
    assert XorBits(30, 24, 6) == 6;
    assert XorBits(60, 49, 7) == 13;
    assert XorBits(120, 99, 8) == 27;
    XorIs(0x78, 0x63, 0x1b);
  }

  lemma Xor6177()
    ensures Xor(0x61, 0x77) == 0x16
  {
    assert XorBits(0, 0, 1) == 0;
    assert XorBits(1, 1, 2) == 0;
    assert XorBits(3, 3, 3) == 0;
    assert XorBits(6, 7, 4) == 1;
    assert XorBits(12, 14, 5) == 2;
    assert XorBits(24, 29, 6) == 5;
    assert XorBits(48, 59, 7) == 11;
    assert XorBits(97, 119, 8) == 22;
    XorIs(0x61, 0x77, 0x16);
  }

  lemma Xor7761()
    ensures Xor(0x77, 0x61) == 0x16
  {
    assert XorBits(0, 0, 1) == 0;
    assert XorBits(1, 1, 2) == 0;
    assert XorBits(3, 3, 3) == 0;
    assert XorBits(7, 6, 4) == 1;
    assert XorBits(14, 12, 5) == 2;
    assert XorBits(29, 24, 6) == 5;
    assert XorBits(59, 48, 7) == 11;
    assert XorBits(119, 97, 8) == 22;
    XorIs(0x77, 0x61, 0x16);
  }

  lemma Xor776e()
    ensures Xor(0x77, 0x6e) == 0x19
  {
    assert XorBits(0, 0, 1) == 0;
    assert XorBits(1, 1, 2) == 0;
    assert XorBits(3, 3, 3) == 0;
    assert XorBits(7, 6, 4) == 1;
    assert XorBits(14, 13, 5) == 3;
    assert XorBits(29, 27, 6) == 6;
    assert XorBits(59, 55, 7) == 12;
    assert XorBits(119, 110, 8) == 25;
    XorIs(0x77, 0x6e, 0x19);
  }

  lemma Xor7267()
    ensures Xor(0x72, 0x67) == 0x15
  {
    assert XorBits(0, 0, 1) == 0;
    assert XorBits(1, 1, 2) == 0;
    assert XorBits(3, 3, 3) == 0;
    assert XorBits(7, 6, 4) == 1;
    assert XorBits(14, 12, 5) == 2;
    assert XorBits(28, 25, 6) == 5;
    assert XorBits(57, 51, 7) == 10;
    assert XorBits(114, 103, 8) == 21;
    XorIs(0x72, 0x67, 0x15);
  }

  lemma Xor631b()
    ensures Xor(0x63, 0x1b) == 0x78
  {
    assert XorBits(0, 0, 1) == 0;
    assert XorBits(1, 0, 2) == 1;
    assert XorBits(3, 0, 3) == 3;
    assert XorBits(6, 1, 4) == 7;
    assert XorBits(12, 3, 5) == 15;
    assert XorBits(24, 6, 6) == 30;
    assert XorBits(49, 13, 7) == 60;
    assert XorBits(99, 27, 8) == 120;
    XorIs(0x63, 0x1b, 0x78);
  }

  lemma Xor6378()
    ensures Xor(0x63, 0x78) == 0x1b
  {
    assert XorBits(0, 0, 1) == 0;
    assert XorBits(1, 1, 2) == 0;
    assert XorBits(3, 3, 3) == 0;
    assert XorBits(6, 7, 4) == 1;
    assert XorBits(12, 15, 5) == 3;
    assert XorBits(24, 30, 6) == 6;
    assert XorBits(49, 60, 7) == 13;
    assert XorBits(99, 120, 8) == 27;
    XorIs(0x63, 0x78, 0x1b);
  }
}
