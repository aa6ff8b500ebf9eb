/** Fixed-size batches of a sequence, as both the importer and the splitter cut
    them: `s[i:i + size]` for `i` in `range(0, len(s), size)`. */
module Chunks {

  function Min(a: int, b: int): int {
    if a < b then a else b
  }

  /** `(n + size - 1) // size`, the number of batches. */
  function Count(n: nat, size: nat): nat
    requires size > 0
  {
    (n + size - 1) / size
  }

  /** The count is ceil(n / size): enough batches for every element, and none
      left empty. */
  lemma CountSpec(n: nat, size: nat)
    requires size > 0
    ensures Count(n, size) * size >= n
    ensures Count(n, size) > 0 ==> (Count(n, size) - 1) * size < n
    ensures n == 0 <==> Count(n, size) == 0
  {
    var m := n + size - 1;
    var q, r := m / size, m % size;
    assert m == q * size + r && 0 <= r < size;
    if q > 0 {
      assert (q - 1) * size == q * size - size;
    }
  }

  /** Batch `k < j` lies wholly before offset `j * size`. */
  lemma MulMono(k: nat, j: nat, size: nat)
    requires k <= j
    ensures k * size <= j * size
  {
  }

  /** Batch number `k`: `s[k * size:(k + 1) * size]`. */
  function Chunk<T>(s: seq<T>, size: nat, k: nat): seq<T>
    requires size > 0 && k < Count(|s|, size)
  {
    CountSpec(|s|, size);
    MulMono(k, Count(|s|, size) - 1, size);
    s[k * size .. Min((k + 1) * size, |s|)]
  }

  /** Every batch holds between 1 and `size` elements, all but the last exactly
      `size`. */
  lemma ChunkSize<T>(s: seq<T>, size: nat, k: nat)
    requires size > 0 && k < Count(|s|, size)
    ensures 1 <= |Chunk(s, size, k)| <= size
    ensures k + 1 < Count(|s|, size) ==> |Chunk(s, size, k)| == size
  {
    CountSpec(|s|, size);
    MulMono(k, Count(|s|, size) - 1, size);
    if k + 1 < Count(|s|, size) {
      MulMono(k + 1, Count(|s|, size) - 1, size);
    }
  }

  /** The first `k` batches, one after the other. */
  function Concat<T>(s: seq<T>, size: nat, k: nat): seq<T>
    requires size > 0 && k <= Count(|s|, size)
  {
    if k == 0 then [] else Concat(s, size, k - 1) + Chunk(s, size, k - 1)
  }

  /** The batches are consecutive slices: the first `k` of them are the first
      `k * size` elements. */
  lemma {:induction false} ChunksCover<T>(s: seq<T>, size: nat, k: nat)
    requires size > 0 && k <= Count(|s|, size)
    ensures Concat(s, size, k) == s[..Min(k * size, |s|)]
  {
    CountSpec(|s|, size);
    if k > 0 {
      ChunksCover(s, size, k - 1);
      MulMono(k - 1, Count(|s|, size) - 1, size);
      var a := (k - 1) * size;
      assert Min(a, |s|) == a;
      assert (k - 1) * size + size == k * size;
      assert s[..Min(k * size, |s|)] == s[..a] + s[a..Min(k * size, |s|)];
    }
  }

  /** All the batches together are the sequence, in order. */
  lemma ChunksAreAll<T>(s: seq<T>, size: nat)
    requires size > 0
    ensures Concat(s, size, Count(|s|, size)) == s
  {
    ChunksCover(s, size, Count(|s|, size));
    CountSpec(|s|, size);
    assert s[..|s|] == s;
  }

  /** Batch `k` exists exactly when its offset `k * size` is inside the sequence. */
  lemma BeforeEnd(n: nat, size: nat, k: nat)
    requires size > 0
    ensures k * size < n <==> k < Count(n, size)
  {
    CountSpec(n, size);
    if k < Count(n, size) {
      MulMono(k, Count(n, size) - 1, size);
    } else {
      MulMono(Count(n, size), k, size);
    }
  }

  /** Batch `k` starts at `k * size` and ends `size` further on or at the end,
      where batch `k + 1` starts when there is one. */
  lemma NextChunk<T>(s: seq<T>, size: nat, k: nat)
    requires size > 0 && k < Count(|s|, size)
    ensures (k + 1) * size == k * size + size
    ensures k * size < |s|
    ensures Chunk(s, size, k) == s[k * size .. Min(k * size + size, |s|)]
    ensures k * size + size < |s| <==> k + 1 < Count(|s|, size)
  {
    BeforeEnd(|s|, size, k);
    BeforeEnd(|s|, size, k + 1);
  }

  /** The list of the first `k` batches, as the batch loop builds it. */
  function Batches<T>(s: seq<T>, size: nat, k: nat): seq<seq<T>>
    requires size > 0 && k <= Count(|s|, size)
  {
    if k == 0 then [] else Batches(s, size, k - 1) + [Chunk(s, size, k - 1)]
  }

  /** Entry `j` of that list is batch number `j`. */
  lemma {:induction false} BatchesAt<T>(s: seq<T>, size: nat, k: nat)
    requires size > 0 && k <= Count(|s|, size)
    ensures |Batches(s, size, k)| == k
    ensures forall j | 0 <= j < k :: Batches(s, size, k)[j] == Chunk(s, size, j)
  {
    if k > 0 {
      BatchesAt(s, size, k - 1);
    }
  }

  /** The batches `bs`, one after the other. */
  function Flatten<T>(bs: seq<seq<T>>): seq<T> {
    if bs == [] then [] else Flatten(bs[..|bs| - 1]) + bs[|bs| - 1]
  }

  /** Flattening a list whose head is `b`: `b`, then the rest flattened. */
  lemma {:induction false} FlattenCons<T>(b: seq<T>, bs: seq<seq<T>>)
    ensures Flatten([b] + bs) == b + Flatten(bs)
    decreases |bs|
  {
    if bs != [] {
      var init := bs[..|bs| - 1];
      assert ([b] + bs)[..|bs|] == [b] + init;
      FlattenCons(b, init);
    }
  }

  /** A list holding the batches in order flattens back to the sequence. */
  lemma {:induction false} FlattenChunks<T>(s: seq<T>, size: nat, bs: seq<seq<T>>)
    requires size > 0 && |bs| <= Count(|s|, size)
    requires forall k | 0 <= k < |bs| :: bs[k] == Chunk(s, size, k)
    ensures Flatten(bs) == Concat(s, size, |bs|)
    decreases |bs|
  {
    if bs != [] {
      FlattenChunks(s, size, bs[..|bs| - 1]);
    }
  }

  /** One pause between two consecutive batches. */
  function Pauses(n: nat, size: nat): nat
    requires size > 0
  {
    if Count(n, size) == 0 then 0 else Count(n, size) - 1
  }

  /** The batch loop's result: batch `k` in place `k` for every batch, and a
      pause between consecutive batches. */
  ghost predicate Batched<T>(s: seq<T>, size: nat, batches: seq<seq<T>>, pauses: nat)
    requires size > 0
  {
    |batches| == Count(|s|, size)
    && (forall k | 0 <= k < |batches| :: batches[k] == Chunk(s, size, k))
    && pauses == if |batches| == 0 then 0 else |batches| - 1
  }

  /** The batch loop after `b` batches, the next one starting at offset `i`, with a
      pause taken after each batch that has a successor. */
  ghost predicate Partial<T>(s: seq<T>, size: nat, i: nat, b: nat, batches: seq<seq<T>>, pauses: nat)
    requires size > 0
  {
    b <= Count(|s|, size) && i == b * size && (i < |s| <==> b < Count(|s|, size))
    && batches == Batches(s, size, b)
    && pauses == if b == 0 then 0 else if b < Count(|s|, size) then b else b - 1
  }

  lemma PartialStart<T>(s: seq<T>, size: nat)
    requires size > 0
    ensures Partial(s, size, 0, 0, [], 0)
  {
    BeforeEnd(|s|, size, 0);
  }

  /** Taking `s[i:i + size]` and pausing when rows remain keeps the loop's state. */
  lemma PartialNext<T>(s: seq<T>, size: nat, i: nat, b: nat, batches: seq<seq<T>>, pauses: nat)
    requires size > 0 && Partial(s, size, i, b, batches, pauses) && i < |s|
    ensures Partial(s, size, i + size, b + 1, batches + [s[i .. Min(i + size, |s|)]],
                    if i + size < |s| then pauses + 1 else pauses)
  {
    NextChunk(s, size, b);
  }

  /** Once the offset passes the end, every batch has been taken. */
  lemma PartialEnd<T>(s: seq<T>, size: nat, i: nat, b: nat, batches: seq<seq<T>>, pauses: nat)
    requires size > 0 && Partial(s, size, i, b, batches, pauses) && i >= |s|
    ensures batches == Batches(s, size, Count(|s|, size)) && pauses == Pauses(|s|, size)
  {
  }

  /** The list of all the batches, with its pauses, is what the batch loop
      promises. */
  lemma AllBatched<T>(s: seq<T>, size: nat)
    requires size > 0
    ensures Batched(s, size, Batches(s, size, Count(|s|, size)), Pauses(|s|, size))
  {
    BatchesAt(s, size, Count(|s|, size));
  }

  /** The batches are consecutive slices whose concatenation is the sequence, each
      holding between 1 and `size` elements, and there are ceil(n / size) of them. */
  lemma BatchesCover<T>(s: seq<T>, size: nat, batches: seq<seq<T>>, pauses: nat)
    requires size > 0 && Batched(s, size, batches, pauses)
    ensures Flatten(batches) == s
    ensures forall k | 0 <= k < |batches| :: 1 <= |batches[k]| <= size
    ensures |batches| * size >= |s| && (|batches| > 0 ==> (|batches| - 1) * size < |s|)
  {
    FlattenChunks(s, size, batches);
    ChunksAreAll(s, size);
    CountSpec(|s|, size);
    forall k | 0 <= k < |batches| ensures 1 <= |batches[k]| <= size {
      ChunkSize(s, size, k);
    }
  }
}
