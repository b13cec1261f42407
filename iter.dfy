/**
 * Grouping the elements of a sequence (haklib.iter): in pairs, in chunks
 * that drop an incomplete tail, and in blocks that pad the last one.
 * Python's iterator tricks (`zip(it, it)`, `zip(*[it]*n)`,
 * `zip_longest(*[it]*n)`) become recursive functions over sequences.
 */
module Iter {
  import opened Arith

  /** The elements of a sequence of sequences, one after the other. */
  function Flatten<T>(ss: seq<seq<T>>): seq<T>
  {
    if ss == [] then [] else ss[0] + Flatten(ss[1..])
  }

  /** `k` copies of `x`. */
  function Fill<T>(x: T, k: nat): (r: seq<T>)
    ensures |r| == k
    ensures forall i :: 0 <= i < k ==> r[i] == x
  {
    if k == 0 then [] else [x] + Fill(x, k - 1)
  }

  // ---------------------------------------------------------------------
  // pairwise

  /** pairwise: `zip(it, it)` takes two elements at a time and drops a lone last one. */
  function Pairwise<T>(s: seq<T>): (r: seq<(T, T)>)
    ensures |r| == |s| / 2
    ensures forall i :: 0 <= i < |r| ==> r[i] == (s[2 * i], s[2 * i + 1])
    decreases |s|
  {
    if |s| < 2 then [] else [(s[0], s[1])] + Pairwise(s[2..])
  }

  // ---------------------------------------------------------------------
  // chunkwise

  /**
   * chunkwise: `zip(*[it]*n)` takes `n` elements at a time and drops an
   * incomplete last chunk.  For `n <= 0` there is nothing to zip and the
   * result is empty.
   */
  function Chunkwise<T>(s: seq<T>, n: int): (r: seq<seq<T>>)
    ensures n <= 0 ==> r == []
    decreases |s|
  {
    if n <= 0 || |s| < n then [] else [s[..n]] + Chunkwise(s[n..], n)
  }

  /** Every chunk holds exactly `n` elements. */
  lemma {:induction false} ChunkSizes<T>(s: seq<T>, n: int)
    ensures forall i :: 0 <= i < |Chunkwise(s, n)| ==> |Chunkwise(s, n)[i]| == n
    decreases |s|
  {
    if n > 0 && |s| >= n {
      ChunkSizes(s[n..], n);
      assert Chunkwise(s, n) == [s[..n]] + Chunkwise(s[n..], n);
    }
  }

  /** `|s| / n` counted one chunk at a time. */
  lemma DivStep(len: nat, n: nat)
    requires 0 < n <= len
    ensures len / n == (len - n) / n + 1
    ensures len % n == (len - n) % n
  {
    var q, r := (len - n) / n, (len - n) % n;
    assert len - n == q * n + r;
    assert len == (q + 1) * n + r;
    ModUnique(len, q + 1, r, n);
  }

  /** A sequence shorter than `n` holds no whole chunk. */
  lemma ShortQuotient(len: nat, n: nat)
    requires 0 <= len < n
    ensures len / n == 0 && len % n == len
  {
    ModUnique(len, 0, len, n);
  }

  /** chunkwise yields `|s| / n` chunks. */
  lemma {:induction false} ChunkwiseCount<T>(s: seq<T>, n: int)
    requires n > 0
    ensures |Chunkwise(s, n)| == |s| / n
    decreases |s|
  {
    if |s| >= n {
      ChunkwiseCount(s[n..], n);
      DivStep(|s|, n);
    } else {
      ShortQuotient(|s|, n);
    }
  }

  /** Chunk `i` is `s[n*i .. n*i + n]`. */
  lemma {:induction false} ChunkAt<T>(s: seq<T>, n: int, i: nat)
    requires n > 0 && i < |s| / n
    ensures n * i + n <= |s| && i < |Chunkwise(s, n)|
    ensures Chunkwise(s, n)[i] == s[n * i .. n * i + n]
    decreases i
  {
    ChunkwiseCount(s, n);
    assert |s| >= n;
    var rest := s[n..];
    assert Chunkwise(s, n) == [s[..n]] + Chunkwise(rest, n);
    if i > 0 {
      DivStep(|s|, n);
      ChunkAt(rest, n, i - 1);
      MulStep(i - 1, n);
      SliceOfRest(s, n, n * (i - 1));
    }
  }

  /** A slice of `s[n..]` is the slice of `s` `n` places further on. */
  lemma SliceOfRest<T>(s: seq<T>, n: nat, k: nat)
    requires n <= |s| && k + n + n <= |s|
    ensures s[n..][k .. k + n] == s[k + n .. k + n + n]
  {
  }

  /** chunkwise yields `|s| / n` chunks, chunk `i` being `s[n*i .. n*i + n]`. */
  lemma ChunkwiseAt<T>(s: seq<T>, n: int)
    requires n > 0
    ensures |Chunkwise(s, n)| == |s| / n
    ensures forall i :: 0 <= i < |s| / n ==> n * i + n <= |s| && Chunkwise(s, n)[i] == s[n * i .. n * i + n]
  {
    ChunkwiseCount(s, n);
    forall i | 0 <= i < |s| / n
      ensures n * i + n <= |s| && Chunkwise(s, n)[i] == s[n * i .. n * i + n]
    {
      ChunkAt(s, n, i);
    }
  }

  /** Concatenating the chunks gives the input without its last `|s| % n` elements. */
  lemma {:induction false} ChunkwiseFlatten<T>(s: seq<T>, n: int)
    requires n > 0
    ensures |s| / n * n + |s| % n == |s|
    ensures Flatten(Chunkwise(s, n)) == s[..|s| / n * n]
    decreases |s|
  {
    if |s| >= n {
      var rest := s[n..];
      ChunkwiseFlatten(rest, n);
      var m := |rest| / n * n;
      WholeChunksStep(|s|, n);
      ChunkwiseFlattenStep(s, n, m);
    } else {
      ShortQuotient(|s|, n);
    }
    DivMod(|s|, n);
  }

  /** The elements in whole chunks, counted one chunk at a time. */
  lemma WholeChunksStep(len: nat, n: int)
    requires 0 < n <= len
    ensures (len - n) / n * n <= len - n
    ensures len / n * n == (len - n) / n * n + n
  {
    DivStep(len, n);
    DivMod(len - n, n);
    MulStep((len - n) / n, n);
  }

  /** One more whole chunk in front adds its `n` elements to the concatenation. */
  lemma ChunkwiseFlattenStep<T>(s: seq<T>, n: int, m: nat)
    requires 0 < n <= |s| && m + n <= |s|
    requires Flatten(Chunkwise(s[n..], n)) == s[n..][..m]
    ensures Flatten(Chunkwise(s, n)) == s[..m + n]
  {
    assert Chunkwise(s, n)[1..] == Chunkwise(s[n..], n);
    SliceConcat(s, n, m);
  }

  lemma SliceConcat<T>(s: seq<T>, n: nat, m: nat)
    requires n + m <= |s|
    ensures s[..n] + s[n..][..m] == s[..m + n]
  {
  }

  /** Pair `i` of pairwise is chunk `i` of chunkwise with chunks of two. */
  lemma {:induction false} PairIsChunk<T>(s: seq<T>, i: nat)
    requires i < |s| / 2
    ensures i < |Pairwise(s)| && i < |Chunkwise(s, 2)|
    ensures Chunkwise(s, 2)[i] == [Pairwise(s)[i].0, Pairwise(s)[i].1]
  {
    ChunkAt(s, 2, i);
    assert s[2 * i .. 2 * i + 2] == [s[2 * i], s[2 * i + 1]];
  }

  /** pairwise is chunkwise with chunks of two, each pair as a two-element chunk. */
  lemma PairwiseIsChunkwise<T>(s: seq<T>)
    ensures |Pairwise(s)| == |Chunkwise(s, 2)|
    ensures forall i :: 0 <= i < |Pairwise(s)| ==> Chunkwise(s, 2)[i] == [Pairwise(s)[i].0, Pairwise(s)[i].1]
  {
    ChunkwiseCount(s, 2);
    forall i | 0 <= i < |Pairwise(s)|
      ensures Chunkwise(s, 2)[i] == [Pairwise(s)[i].0, Pairwise(s)[i].1]
    {
      PairIsChunk(s, i);
    }
  }

  // ---------------------------------------------------------------------
  // blockwise

  /**
   * blockwise: `zip_longest(*[it]*n, fillvalue=fill)` takes `n` elements at
   * a time and pads an incomplete last block with `fill`; an input whose
   * length `n` divides gets no padding.  For `n <= 0` the result is empty.
   */
  function Blockwise<T>(s: seq<T>, n: int, fill: T): (r: seq<seq<T>>)
    ensures n <= 0 ==> r == []
    decreases |s|
  {
    if n <= 0 || |s| == 0 then []
    else if |s| >= n then [s[..n]] + Blockwise(s[n..], n, fill)
    else [s + Fill(fill, n - |s|)]
  }

  /** Every block holds exactly `n` elements, the last one padded. */
  lemma {:induction false} BlockSizes<T>(s: seq<T>, n: int, fill: T)
    ensures forall i :: 0 <= i < |Blockwise(s, n, fill)| ==> |Blockwise(s, n, fill)[i]| == n
    decreases |s|
  {
    if n > 0 && |s| >= n {
      BlockSizes(s[n..], n, fill);
      assert Blockwise(s, n, fill) == [s[..n]] + Blockwise(s[n..], n, fill);
    }
  }

  /** blockwise yields `ceil(|s| / n)` blocks. */
  lemma {:induction false} BlockwiseCount<T>(s: seq<T>, n: int, fill: T)
    requires n > 0
    ensures |Blockwise(s, n, fill)| == (|s| + n - 1) / n
    decreases |s|
  {
    if |s| >= n {
      BlockwiseCount(s[n..], n, fill);
      DivStep(|s| + n - 1, n);
    } else if |s| == 0 {
      ModUnique(n - 1, 0, n - 1, n);
    } else {
      ModUnique(|s| + n - 1, 1, |s| - 1, n);
    }
  }

  /** The number of fill values blockwise adds: none when `n` divides `|s|`. */
  function Padding(len: nat, n: int): nat
    requires n > 0
  {
    (n - len % n) % n
  }

  /** A whole block in front does not change the padding. */
  lemma PaddingStep(len: nat, n: int)
    requires 0 < n <= len
    ensures Padding(len, n) == Padding(len - n, n)
  {
    DivStep(len, n);
  }

  /** A non-empty input shorter than a block is padded up to the block size. */
  lemma PaddingShort(len: nat, n: int)
    requires 0 < len < n
    ensures Padding(len, n) == n - len
  {
    ModUnique(len, 0, len, n);
    ModUnique(n - len, 0, n - len, n);
  }

  /**
   * Concatenating the blocks gives the input followed by `(n - |s| % n) % n`
   * copies of the fill value.
   */
  lemma {:induction false} BlockwiseFlatten<T>(s: seq<T>, n: int, fill: T)
    requires n > 0
    ensures Flatten(Blockwise(s, n, fill)) == s + Fill(fill, Padding(|s|, n))
    decreases |s|
  {
    if |s| >= n {
      var rest := s[n..];
      var pad := Fill(fill, Padding(|rest|, n));
      BlockwiseFlatten(rest, n, fill);
      PaddingStep(|s|, n);
      assert Blockwise(s, n, fill) == [s[..n]] + Blockwise(rest, n, fill);
      assert Flatten(Blockwise(s, n, fill)) == s[..n] + Flatten(Blockwise(rest, n, fill));
      assert s[..n] + (rest + pad) == s + pad;
    } else if |s| == 0 {
      assert Padding(0, n) == 0;
    } else {
      PaddingShort(|s|, n);
      assert Blockwise(s, n, fill) == [s + Fill(fill, n - |s|)];
    }
  }
}
