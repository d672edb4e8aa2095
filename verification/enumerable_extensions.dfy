/** `Chunk` of `src/KingUtils/EnumerableExtensions.cs`: a sequence split, in
    order, into arrays of `size` elements, the last one possibly shorter.
    The enumerable is modelled as the finite sequence it enumerates. */
module EnumerableExtensions {
  import opened Wrappers
  import Bits

  /** The elements of the chunks, one chunk after the other. */
  function Concat<T>(chunks: seq<seq<T>>): (s: seq<T>)
  {
    if |chunks| == 0 then [] else chunks[0] + Concat(chunks[1..])
  }

  /** What a chunking must look like: every chunk but the last holds
      exactly `size` elements and the last is not empty. */
  predicate WellChunked<T>(chunks: seq<seq<T>>, size: int)
  {
    && (forall i :: 0 <= i < |chunks| - 1 ==> |chunks[i]| == size)
    && (|chunks| > 0 ==> 0 < |chunks[|chunks| - 1]| <= size)
  }

  /** The chunks of `s`, taken from the front. */
  function Chunks<T>(s: seq<T>, size: int): (chunks: seq<seq<T>>)
    requires size >= 1
    decreases |s|
  {
    if |s| == 0 then []
    else if |s| <= size then [s]
    else [s[..size]] + Chunks(s[size..], size)
  }

  /** Concatenating the chunks gives back the source, in order. */
  lemma {:induction false} ConcatChunks<T>(s: seq<T>, size: int)
    requires size >= 1
    ensures Concat(Chunks(s, size)) == s
    decreases |s|
  {
    if |s| > size {
      ConcatChunks(s[size..], size);
      assert Chunks(s, size)[1..] == Chunks(s[size..], size);
      assert s == s[..size] + s[size..];
    } else if |s| > 0 {
      assert Concat(Chunks(s, size)) == s + Concat([]);
    }
  }

  /** Every chunk but the last is full, and the last is not empty. */
  lemma {:induction false} ChunksWellChunked<T>(s: seq<T>, size: int)
    requires size >= 1
    ensures WellChunked(Chunks(s, size), size)
    decreases |s|
  {
    if |s| > size {
      ChunksWellChunked(s[size..], size);
      var rest := Chunks(s[size..], size);
      assert Chunks(s, size) == [s[..size]] + rest;
      assert forall i :: 1 <= i < |rest| + 1 ==> Chunks(s, size)[i] == rest[i - 1];
    }
  }

  /** There are `ceil(n / size)` chunks, so none at all for an empty source
      and no empty trailing chunk when `size` divides `n`. */
  lemma {:induction false} ChunkCount<T>(s: seq<T>, size: int)
    requires size >= 1
    ensures |Chunks(s, size)| == (|s| + size - 1) / size
    ensures Chunks(s, size) == [] <==> |s| == 0
    decreases |s|
  {
    if |s| == 0 {
      Bits.DivModUnique(size - 1, size, 0, size - 1);
    } else if |s| <= size {
      Bits.DivModUnique(|s| + size - 1, size, 1, |s| - 1);
    } else {
      var m := |s| - size;
      ChunkCount(s[size..], size);
      var q, r := (m + size - 1) / size, (m + size - 1) % size;
      Bits.DivModUnique(|s| + size - 1, size, q + 1, r);
    }
  }

  /** A well-formed chunking of `s` is the chunking of `s`: the contract
      above leaves no other choice. */
  lemma {:induction false} ChunksUnique<T>(s: seq<T>, size: int, chunks: seq<seq<T>>)
    requires size >= 1
    requires Concat(chunks) == s && WellChunked(chunks, size)
    ensures chunks == Chunks(s, size)
    decreases |chunks|
  {
    if |chunks| == 0 {
      assert s == [];
    } else if |chunks| == 1 {
      var none: seq<seq<T>> := chunks[1..];
      assert |none| == 0 && Concat(none) == [];
      assert s == chunks[0] + Concat(none) == chunks[0];
      assert chunks == [chunks[0]] && 0 < |s| <= size;
      assert Chunks(s, size) == [s];
    } else if |chunks| > 1 {
      var rest := chunks[1..];
      assert WellChunked(rest, size) by {
        assert forall i :: 0 <= i < |rest| ==> rest[i] == chunks[i + 1];
      }
      ChunksUnique(Concat(rest), size, rest);
      ChunkCount(Concat(rest), size);
      assert |chunks[0]| == size && s == chunks[0] + Concat(rest);
      assert s[..size] == chunks[0] && s[size..] == Concat(rest);
      assert chunks == [chunks[0]] + rest;
    }
  }

  /** The chunks from `start` on, when more than `size` elements remain. */
  lemma NextChunk<T>(source: seq<T>, start: nat, size: int)
    requires size >= 1 && start + size < |source|
    ensures Chunks(source[start..], size) ==
      [source[start..start + size]] + Chunks(source[start + size..], size)
  {
    var rest := source[start..];
    assert rest[..size] == source[start..start + size];
    assert rest[size..] == source[start + size..];
  }

  /** The chunks from `start` on, when at most `size` elements remain. */
  lemma LastChunk<T>(source: seq<T>, start: nat, size: int)
    requires size >= 1 && start < |source| <= start + size
    ensures Chunks(source[start..], size) == [source[start..]]
  {
  }

  /** The `do`-`while` of `ChunkIterator`: add `Current`, then keep moving
      and adding while the chunk has room. `moved` counts the calls of
      `MoveNext` that succeeded, so `Current` is `source[moved - 1]`; a
      `MoveNext` past the end fails and changes nothing. */
  method FillChunk<T>(source: seq<T>, moved0: nat, size: int) returns (chunk: seq<T>, moved: nat)
    requires size >= 1 && 1 <= moved0 <= |source|
    ensures moved0 <= moved <= |source| && chunk == source[moved0 - 1..moved]
    ensures |chunk| == size || (|chunk| < size && moved == |source|)
  {
    moved := moved0;
    chunk := [source[moved - 1]];
    while |chunk| < size && moved < |source|
      invariant moved0 <= moved <= |source|
      invariant chunk == source[moved0 - 1..moved] && |chunk| <= size
      decreases |source| - moved
    {
      moved := moved + 1;
      chunk := chunk + [source[moved - 1]];
    }
  }

  /** `ChunkIterator`: the chunks it yields, in order. */
  method ChunkIterator<T>(source: seq<T>, size: int) returns (chunks: seq<seq<T>>)
    requires size >= 1
    ensures chunks == Chunks(source, size)
  {
    chunks := [];
    var moved := 0;
    if moved < |source| {
      moved := 1;
      assert source[moved - 1..] == source;
      while true
        invariant 1 <= moved <= |source|
        invariant chunks + Chunks(source[moved - 1..], size) == Chunks(source, size)
        decreases |source| - moved
      {
        var start := moved - 1;
        var chunk;
        chunk, moved := FillChunk(source, moved, size);
        chunks := chunks + [chunk];
        if |chunk| < size || moved == |source| {
          LastChunk(source, start, size);
          assert chunk == source[start..];
          assert chunks == Chunks(source, size);
          break;
        }
        NextChunk(source, start, size);
        moved := moved + 1;
      }
    }
  }

  /** `source.Chunk(size)`: a null source and a size below one are refused
      before any element is read; otherwise the chunks of the source. */
  method Chunk<T>(source: Option<seq<T>>, size: int) returns (r: Result<seq<seq<T>>, Exception>)
    ensures source.None? ==> r == Failure(ArgumentNull("source"))
    ensures source.Some? && size < 1 ==> r == Failure(ArgumentOutOfRange("size"))
    ensures r.Success? <==> source.Some? && size >= 1
    ensures r.Success? ==> Concat(r.value) == source.value && WellChunked(r.value, size)
    ensures r.Success? ==> |r.value| == (|source.value| + size - 1) / size
  {
    if source.None? {
      return Failure(ArgumentNull("source"));
    }
    if size < 1 {
      return Failure(ArgumentOutOfRange("size"));
    }
    var chunks := ChunkIterator(source.value, size);
    ConcatChunks(source.value, size);
    ChunksWellChunked(source.value, size);
    ChunkCount(source.value, size);
    return Success(chunks);
  }
}
