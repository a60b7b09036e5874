/**
 The chunk splitter: a text is cut into consecutive slices of at most
 `chunkSize` characters, starting at offsets 0, chunkSize, 2 * chunkSize, ...
 The last slice is the remainder and may be shorter.
 */
module TextChunks {
  import opened Seqs

  /** The size used when the caller does not pass one. */
  const DefaultChunkSize: nat := 1000

  /** Reference definition of the split: the first slice, then the split of the rest. */
  function Chunks(text: string, size: nat): seq<string>
    requires size > 0
    decreases |text|
  {
    if |text| == 0 then []
    else if |text| <= size then [text]
    else [text[..size]] + Chunks(text[size..], size)
  }

  /** Joining the chunks gives back exactly the text. */
  lemma {:induction false} ChunksConcat(text: string, size: nat)
    requires size > 0
    ensures Concat(Chunks(text, size)) == text
    decreases |text|
  {
    if |text| > size {
      ChunksConcat(text[size..], size);
      assert text[..size] + text[size..] == text;
    }
  }

  /** Every chunk is non-empty and at most `size` long; every chunk but the last is exactly `size` long. */
  lemma {:induction false} ChunkSizes(text: string, size: nat)
    requires size > 0
    ensures forall k | 0 <= k < |Chunks(text, size)| ::
      0 < |Chunks(text, size)[k]| <= size &&
      (k < |Chunks(text, size)| - 1 ==> |Chunks(text, size)[k]| == size)
    decreases |text|
  {
    if |text| > size {
      ChunkSizes(text[size..], size);
      var cs := Chunks(text, size);
      var rest := Chunks(text[size..], size);
      assert cs == [text[..size]] + rest;
      assert |cs| == |rest| + 1;
      forall k | 0 < k < |cs|
        ensures 0 < |cs[k]| <= size && (k < |cs| - 1 ==> |cs[k]| == size)
      {
        assert cs[k] == rest[k - 1];
      }
    }
  }

  /** A multiple of a positive number that lies strictly between its negation and itself is zero. */
  lemma SmallMultiple(d: int, size: nat)
    requires size > 0
    requires -(size as int) < d * size < size
    ensures d == 0
  {
  }

  /** Adding `size` adds one to the quotient. */
  lemma DivStep(x: nat, size: nat)
    requires size > 0
    ensures (x + size) / size == x / size + 1
  {
    var q, r := x / size, x % size;
    var q', r' := (x + size) / size, (x + size) % size;
    assert x == q * size + r;
    assert x + size == q' * size + r';
    assert (q' - q - 1) * size == r - r' by {
      assert (q' - q - 1) * size == q' * size - q * size - size;
    }
    SmallMultiple(q' - q - 1, size);
  }

  /** ceil(n / size) is 1 for 0 < n <= size. */
  lemma CeilOne(n: nat, size: nat)
    requires 0 < n <= size
    ensures (n + size - 1) / size == 1
  {
  }

  /** ceil((m + size) / size) is ceil(m / size) + 1. */
  lemma CeilStep(m: nat, size: nat)
    requires 0 < m && size > 0
    ensures (m + size + size - 1) / size == (m + size - 1) / size + 1
  {
    DivStep(m + size - 1, size);
  }

  /** The empty text gives no chunk; a text of length L gives ceil(L / size) chunks. */
  lemma {:induction false} ChunkCount(text: string, size: nat)
    requires size > 0
    ensures |Chunks(text, size)| == (|text| + size - 1) / size
    decreases |text|
  {
    var n := |text|;
    if n == 0 {
      assert (size - 1) / size == 0;
    } else if n <= size {
      CeilOne(n, size);
    } else {
      var rest := text[size..];
      ChunkCount(rest, size);
      CeilStep(|rest|, size);
      assert |Chunks(text, size)| == 1 + |Chunks(rest, size)|;
      assert |rest| + size == n;
    }
  }

  /** Chunk `k` is the slice of the text from offset k * size up to (k + 1) * size, clipped at the end. */
  lemma {:induction false} ChunkAt(text: string, size: nat, k: nat)
    requires size > 0
    requires k < |Chunks(text, size)|
    ensures k * size < |text|
    ensures Chunks(text, size)[k] ==
      text[k * size .. if (k + 1) * size < |text| then (k + 1) * size else |text|]
    decreases |text|
  {
    if |text| > size && k > 0 {
      var rest := text[size..];
      ChunkAt(rest, size, k - 1);
      assert (k - 1) * size + size == k * size;
      assert k * size + size == (k + 1) * size;
      assert Chunks(text, size)[k] == Chunks(rest, size)[k - 1];
    }
  }

  /**
   The splitter as the source runs it: a counting loop that steps the offset by
   `chunkSize` and pushes the (end-clipped) slice at each offset.
   */
  method ChunkText(text: string, chunkSize: nat := DefaultChunkSize) returns (chunks: seq<string>)
    requires chunkSize > 0
    ensures chunks == Chunks(text, chunkSize)
  {
    chunks := [];
    var i := 0;
    while i < |text|
      invariant 0 <= i
      invariant i < |text| ==> chunks + Chunks(text[i..], chunkSize) == Chunks(text, chunkSize)
      invariant i >= |text| ==> chunks == Chunks(text, chunkSize)
      decreases |text| - i
    {
      var end := if i + chunkSize < |text| then i + chunkSize else |text|;
      var rest := text[i..];
      assert Chunks(rest, chunkSize) == [text[i..end]] + (if end < |text| then Chunks(text[end..], chunkSize) else []) by {
        if |rest| > chunkSize {
          assert rest[..chunkSize] == text[i..end];
          assert rest[chunkSize..] == text[end..];
        } else {
          assert rest == text[i..end];
        }
      }
      chunks := chunks + [text[i..end]];
      i := i + chunkSize;
    }
  }
}
