/** The batch partitioner: a slice of parsed games is cut into consecutive,
    order-preserving chunks of a fixed size, the last one possibly shorter. */
module Batching {

  function Min(a: int, b: int): int {
    if a <= b then a else b
  }

  /** ceil(n / d) for d >= 1. */
  function CeilDiv(n: nat, d: nat): nat
    requires d >= 1
  {
    (n + d - 1) / d
  }

  /** Reference partition: the first `size` elements (or all of them), then the
      partition of the rest. */
  function Chunks<T>(s: seq<T>, size: nat): seq<seq<T>>
    requires size >= 1
    decreases |s|
  {
    if |s| == 0 then []
    else
      var end := Min(size, |s|);
      [s[..end]] + Chunks(s[end..], size)
  }

  /** The chunks laid end to end. */
  function Flatten<T>(chunks: seq<seq<T>>): seq<T> {
    if |chunks| == 0 then [] else chunks[0] + Flatten(chunks[1..])
  }

  /** Concatenating the chunks in order gives back the input exactly. */
  lemma {:induction false} ChunksFlatten<T>(s: seq<T>, size: nat)
    requires size >= 1
    ensures Flatten(Chunks(s, size)) == s
    decreases |s|
  {
    if |s| > 0 {
      var end := Min(size, |s|);
      var chunks := Chunks(s, size);
      assert chunks == [s[..end]] + Chunks(s[end..], size);
      assert chunks[0] == s[..end] && chunks[1..] == Chunks(s[end..], size);
      ChunksFlatten(s[end..], size);
      assert Flatten(chunks) == s[..end] + s[end..];
      assert s[..end] + s[end..] == s;
    }
  }

  /** Euclidean division is determined by quotient and remainder. */
  lemma DivUnique(a: nat, d: nat, q: nat, r: nat)
    requires d >= 1 && r < d && a == q * d + r
    ensures a / d == q && a % d == r
  {
    var q0, r0 := a / d, a % d;
    assert a == q0 * d + r0;
    if q0 < q {
      MulAtLeast(q - q0, d);
    } else if q0 > q {
      MulAtLeast(q0 - q, d);
    }
  }

  lemma MulAtLeast(m: nat, d: nat)
    requires m >= 1
    ensures m * d >= d
  {
  }

  lemma CeilDivStep(n: nat, d: nat)
    requires d >= 1 && n > d
    ensures CeilDiv(n, d) == 1 + CeilDiv(n - d, d)
  {
    var q, r := (n - 1) / d, (n - 1) % d;
    assert n - 1 == q * d + r;
    DivUnique(n - 1, d, q, r);
    assert n + d - 1 == (q + 1) * d + r;
    DivUnique(n + d - 1, d, q + 1, r);
  }

  lemma CeilDivSmall(n: nat, d: nat)
    requires 1 <= n <= d
    ensures CeilDiv(n, d) == 1
  {
  }

  lemma ModStep(n: nat, d: nat)
    requires d >= 1 && n >= d
    ensures (n - d) % d == n % d
  {
    var q, r := (n - d) / d, (n - d) % d;
    assert n - d == q * d + r;
    assert n == (q + 1) * d + r;
    DivUnique(n, d, q + 1, r);
  }

  /** There are ceil(|s| / size) chunks; the empty input has none. */
  lemma {:induction false} ChunksCount<T>(s: seq<T>, size: nat)
    requires size >= 1
    ensures |Chunks(s, size)| == CeilDiv(|s|, size)
    ensures |Chunks(s, size)| == 0 <==> |s| == 0
    decreases |s|
  {
    if |s| > size {
      ChunksCount(s[size..], size);
      CeilDivStep(|s|, size);
    } else if |s| > 0 {
      CeilDivSmall(|s|, size);
      assert Chunks(s[|s|..], size) == [];
    }
  }

  /** The partition of the input from index `i` on starts with the chunk at `i`. */
  lemma ChunksFrom<T>(s: seq<T>, size: nat, i: nat)
    requires size >= 1 && i < |s|
    ensures Chunks(s[i..], size) == [s[i..Min(i + size, |s|)]] + Chunks(s[Min(i + size, |s|)..], size)
  {
    var end := Min(i + size, |s|);
    assert s[i..][..end - i] == s[i..end];
    assert s[i..][end - i..] == s[end..];
  }

  /** Past the first chunk, the partition is the partition of what follows it. */
  lemma ChunksAfterFirst<T>(s: seq<T>, size: nat, k: nat)
    requires size >= 1 && 0 < k < |Chunks(s, size)|
    ensures size < |s| && k - 1 < |Chunks(s[size..], size)|
    ensures Chunks(s, size)[k] == Chunks(s[size..], size)[k - 1]
  {
    assert Chunks(s, size) == [s[..Min(size, |s|)]] + Chunks(s[Min(size, |s|)..], size);
  }

  /** A range of the input past its first `size` elements, shifted back by `size`. */
  lemma SliceOfSuffix<T>(s: seq<T>, size: nat, lo: nat, hi: nat)
    requires size <= |s| && lo <= hi <= |s| - size
    ensures s[size..][lo..hi] == s[lo + size .. hi + size]
  {
  }

  /** Chunk `k` equals the index range [k*size, min((k+1)*size, |s|)) of the input:
      it begins at k*size and holds nothing but the input's elements there. */
  lemma {:induction false} ChunkAt<T>(s: seq<T>, size: nat, k: nat)
    requires size >= 1 && k < |Chunks(s, size)|
    ensures k * size < |s|
    ensures Chunks(s, size)[k] == s[k * size .. Min((k + 1) * size, |s|)]
    decreases |s|
  {
    if k > 0 {
      var rest := s[size..];
      ChunksAfterFirst(s, size, k);
      ChunkAt(rest, size, k - 1);
      var lo, hi := (k - 1) * size, Min(k * size, |rest|);
      assert lo + size == k * size by {
        assert k * size == (k - 1) * size + size;
      }
      assert hi + size == Min((k + 1) * size, |s|) by {
        assert (k + 1) * size == k * size + size;
      }
      SliceOfSuffix(s, size, lo, hi);
    }
  }

  /** Every chunk but the last holds exactly `size` elements, the last holds
      |s| mod size of them (or `size` when that is 0), and no chunk is empty. */
  lemma ChunkLengths<T>(s: seq<T>, size: nat)
    requires size >= 1
    ensures forall k :: 0 <= k < |Chunks(s, size)| - 1 ==> |Chunks(s, size)[k]| == size
    ensures |s| > 0 ==> |Chunks(s, size)[|Chunks(s, size)| - 1]| == if |s| % size == 0 then size else |s| % size
    ensures forall k :: 0 <= k < |Chunks(s, size)| ==> |Chunks(s, size)[k]| > 0
  {
    var chunks := Chunks(s, size);
    forall k | 0 <= k < |chunks| - 1 ensures |chunks[k]| == size {
      ChunkAt(s, size, k + 1);
      ChunkAt(s, size, k);
      assert (k + 1) * size == k * size + size;
    }
    forall k | 0 <= k < |chunks| ensures |chunks[k]| > 0 {
      ChunkAt(s, size, k);
    }
    if |s| > 0 {
      LastChunkLength(s, size);
    }
  }

  lemma {:induction false} LastChunkLength<T>(s: seq<T>, size: nat)
    requires size >= 1 && |s| > 0
    ensures |Chunks(s, size)| > 0
    ensures |Chunks(s, size)[|Chunks(s, size)| - 1]| == if |s| % size == 0 then size else |s| % size
    decreases |s|
  {
    if |s| > size {
      var rest := s[size..];
      LastChunkLength(rest, size);
      ModStep(|s|, size);
    } else {
      assert Chunks(s[|s|..], size) == [];
      if |s| < size {
        DivUnique(|s|, size, 0, |s|);
      } else {
        DivUnique(|s|, size, 1, 0);
      }
    }
  }

  /** `chunker`: walks the input in steps of `chunksize`, clamping the end of the
      last chunk to the input's length. Go's loop needs chunksize >= 1: with 0 it
      never advances on a non-empty slice, with a negative size the slice bounds
      go negative. */
  method Chunker<T>(slice: seq<T>, chunksize: int) returns (chunks: seq<seq<T>>)
    requires chunksize >= 1
    ensures chunks == Chunks(slice, chunksize)
    ensures |chunks| == CeilDiv(|slice|, chunksize)
    ensures Flatten(chunks) == slice
  {
    chunks := [];
    var i := 0;
    while i < |slice|
      invariant 0 <= i
      invariant chunks + Chunks(slice[Min(i, |slice|)..], chunksize) == Chunks(slice, chunksize)
      decreases |slice| - i
    {
      var end := i + chunksize;
      if end > |slice| {
        end := |slice|;
      }
      ChunksFrom(slice, chunksize, i);
      assert Min(i + chunksize, |slice|) == end;
      chunks := chunks + [slice[i..end]];
      i := i + chunksize;
    }
    assert Chunks(slice[|slice|..], chunksize) == [];
    ChunksCount(slice, chunksize);
    ChunksFlatten(slice, chunksize);
  }
}
