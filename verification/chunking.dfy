/** Contiguous chunking of a sequence, as done by `for (i = 0; i < n; i += size)
    out.push(xs.slice(i, i + size))`. */
module Chunking {

  function Min(a: int, b: int): int {
    if a <= b then a else b
  }

  /** The concatenation of a list of chunks, in order. */
  function Flatten<T>(xss: seq<seq<T>>): seq<T> {
    if xss == [] then [] else Flatten(xss[..|xss| - 1]) + xss[|xss| - 1]
  }

  /** `xs.slice(k * size, (k + 1) * size)`: the k-th chunk. */
  function ChunkAt<T>(xs: seq<T>, size: nat, k: nat): seq<T>
    requires k * size <= |xs|
  {
    xs[k * size..Min(k * size + size, |xs|)]
  }

  /** `chunks` are the first chunks of `xs`, in order: each is the slice at
      its offset, non-empty and at most `size` long, only the last may be
      short, and together they are the prefix of `xs` they cover. */
  ghost predicate Chunked<T>(xs: seq<T>, size: nat, chunks: seq<seq<T>>) {
    && size > 0
    && (forall k :: 0 <= k < |chunks| ==> k * size < |xs| && chunks[k] == ChunkAt(xs, size, k))
    && (forall k :: 0 <= k < |chunks| ==> 0 < |chunks[k]| <= size)
    && (forall k :: 0 <= k < |chunks| - 1 ==> |chunks[k]| == size)
    && Flatten(chunks) == xs[..Min(|chunks| * size, |xs|)]
  }

  /** Appending the chunk at the next offset keeps the chunking. */
  lemma ChunkStep<T>(xs: seq<T>, size: nat, chunks: seq<seq<T>>)
    requires Chunked(xs, size, chunks) && |chunks| * size < |xs|
    ensures Chunked(xs, size, chunks + [ChunkAt(xs, size, |chunks|)])
  {
    ChunkStepSlices(xs, size, chunks);
    ChunkStepFull(xs, size, chunks);
    ChunkStepFlatten(xs, size, chunks);
  }

  /** The appended chunk is the slice at its offset, like those before it. */
  lemma ChunkStepSlices<T>(xs: seq<T>, size: nat, chunks: seq<seq<T>>)
    requires Chunked(xs, size, chunks) && |chunks| * size < |xs|
    ensures var next := chunks + [ChunkAt(xs, size, |chunks|)];
      forall k :: 0 <= k < |next| ==> k * size < |xs| && next[k] == ChunkAt(xs, size, k) && 0 < |next[k]| <= size
  {
    var n := |chunks|;
    var chunk := ChunkAt(xs, size, n);
    var next := chunks + [chunk];
    assert 0 < |chunk| <= size;
    forall k | 0 <= k < |next|
      ensures k * size < |xs| && next[k] == ChunkAt(xs, size, k) && 0 < |next[k]| <= size
    {
      if k < n {
        assert next[k] == chunks[k];
      }
    }
  }

  /** The chunk that was last before the step is full: the next offset is inside `xs`. */
  lemma ChunkStepFull<T>(xs: seq<T>, size: nat, chunks: seq<seq<T>>)
    requires Chunked(xs, size, chunks) && |chunks| * size < |xs|
    ensures var next := chunks + [ChunkAt(xs, size, |chunks|)];
      forall k :: 0 <= k < |next| - 1 ==> |next[k]| == size
  {
    var n := |chunks|;
    var next := chunks + [ChunkAt(xs, size, n)];
    forall k | 0 <= k < |next| - 1 ensures |next[k]| == size {
      assert next[k] == chunks[k];
      if k == n - 1 {
        assert k * size + size == n * size;
      }
    }
  }

  /** The chunks now cover the prefix up to the next offset. */
  lemma ChunkStepFlatten<T>(xs: seq<T>, size: nat, chunks: seq<seq<T>>)
    requires Chunked(xs, size, chunks) && |chunks| * size < |xs|
    ensures var next := chunks + [ChunkAt(xs, size, |chunks|)];
      Flatten(next) == xs[..Min(|next| * size, |xs|)]
  {
    var n := |chunks|;
    var i := n * size;
    var next := chunks + [ChunkAt(xs, size, n)];
    MulSucc(n, size);
    assert Flatten(chunks) == xs[..i];
    assert next[..n] == chunks;
    AppendSlice(xs, i, Min(i + size, |xs|));
  }

  /** The offset of the next chunk. */
  lemma MulSucc(n: nat, size: nat)
    ensures (n + 1) * size == n * size + size
  {
  }

  /** A prefix followed by the slice after it is the longer prefix. */
  lemma AppendSlice<T>(xs: seq<T>, i: nat, hi: nat)
    requires i <= hi <= |xs|
    ensures xs[..i] + xs[i..hi] == xs[..hi]
  {
  }

  /** Pushing the slice at offset `i` keeps the chunking and moves the offset on by `size`. */
  lemma ChunkAppend<T>(xs: seq<T>, size: nat, chunks: seq<seq<T>>, i: nat)
    requires Chunked(xs, size, chunks) && i == |chunks| * size && i < |xs|
    ensures var next := chunks + [xs[i..Min(i + size, |xs|)]];
      Chunked(xs, size, next) && i + size == |next| * size && (|next| - 1) * size < |xs|
  {
    assert xs[i..Min(i + size, |xs|)] == ChunkAt(xs, size, |chunks|);
    ChunkStep(xs, size, chunks);
    MulSucc(|chunks|, size);
  }

  /** Once the offset has passed the end, the chunks cover `xs` exactly. */
  lemma ChunksDone<T>(xs: seq<T>, size: nat, chunks: seq<seq<T>>, i: nat)
    requires Chunked(xs, size, chunks) && i == |chunks| * size && |xs| <= i
    ensures Flatten(chunks) == xs
  {
    assert xs[..Min(i, |xs|)] == xs;
  }

  /** Cuts `xs` into consecutive chunks of `size` elements (the last one
      possibly shorter): every chunk is non-empty and at most `size` long, the
      k-th chunk starts at `k * size`, only the last is short, and the chunks
      together are `xs` itself, so each element is in exactly one chunk. */
  method MakeChunks<T>(xs: seq<T>, size: nat) returns (chunks: seq<seq<T>>)
    requires size > 0
    ensures forall k :: 0 <= k < |chunks| ==> 0 < |chunks[k]| <= size
    ensures forall k :: 0 <= k < |chunks| ==> k * size < |xs| && chunks[k] == ChunkAt(xs, size, k)
    ensures forall k :: 0 <= k < |chunks| - 1 ==> |chunks[k]| == size
    ensures (|chunks| - 1) * size < |xs| <= |chunks| * size
    ensures Flatten(chunks) == xs
  {
    chunks := [];
    var i := 0;
    while i < |xs|
      invariant i == |chunks| * size
      invariant Chunked(xs, size, chunks)
      invariant (|chunks| - 1) * size < |xs|
    {
      ChunkAppend(xs, size, chunks, i);
      chunks := chunks + [xs[i..Min(i + size, |xs|)]];
      i := i + size;
    }
    ChunksDone(xs, size, chunks, i);
  }
}
