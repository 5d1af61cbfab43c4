/**
  `chunk_pdf` (src/chunker.rs): splits the document's bytes into pieces of
  `chunk_size` bytes, the last piece possibly shorter, as the slice method
  `chunks` does; a chunk size of 0 (which `chunks` would reject) yields the
  whole input as one piece instead.
*/
module Chunker {

  import opened Arith

  newtype Byte = b: int | 0 <= b < 256

  /** Concatenation of the pieces, in order. */
  function Flatten(pieces: seq<seq<Byte>>): seq<Byte>
  {
    if pieces == [] then [] else pieces[0] + Flatten(pieces[1..])
  }

  /** The slice method `chunks(size)`: consecutive pieces of `size` bytes,
      the last one holding whatever is left. */
  function Chunks(data: seq<Byte>, size: nat): (r: seq<seq<Byte>>)
    requires size > 0
    ensures |r| == CeilDiv(|data|, size)
    ensures forall i :: 0 <= i < |r| ==> 1 <= |r[i]| <= size
    ensures forall i :: 0 <= i < |r| - 1 ==> |r[i]| == size
    decreases |data|
  {
    if |data| == 0 then []
    else if |data| <= size then
      CeilDivOne(|data|, size);
      [data]
    else
      CeilDivStep(|data|, size);
      [data[..size]] + Chunks(data[size..], size)
  }

  /** `chunk_pdf(data, chunk_size)`. */
  function ChunkPdf(data: seq<Byte>, chunkSize: nat): (r: seq<seq<Byte>>)
    ensures Flatten(r) == data
    ensures chunkSize > 0 ==> |r| == CeilDiv(|data|, chunkSize)
    ensures chunkSize > 0 ==> forall i :: 0 <= i < |r| ==> 1 <= |r[i]| <= chunkSize
    ensures chunkSize > 0 ==> forall i :: 0 <= i < |r| - 1 ==> |r[i]| == chunkSize
  {
    if chunkSize == 0 then
      assert Flatten([data]) == data + Flatten([]);
      [data]
    else
      ChunksRoundTrip(data, chunkSize);
      Chunks(data, chunkSize)
  }

  /** Concatenating the pieces gives back the input. */
  lemma {:induction false} ChunksRoundTrip(data: seq<Byte>, size: nat)
    requires size > 0
    ensures Flatten(Chunks(data, size)) == data
    decreases |data|
  {
    var r := Chunks(data, size);
    if |data| == 0 {
    } else if |data| <= size {
      assert r == [data];
      assert Flatten(r) == data + Flatten([]);
    } else {
      ChunksRoundTrip(data[size..], size);
      assert r[1..] == Chunks(data[size..], size);
      assert data == data[..size] + data[size..];
    }
  }

  /** Piece `i` is exactly the bytes `i*size .. min((i+1)*size, len)` of the input. */
  lemma {:induction false} ChunkAt(data: seq<Byte>, size: nat, i: nat)
    requires size > 0
    requires i < |Chunks(data, size)|
    ensures i * size < |data|
    ensures Chunks(data, size)[i] == data[i * size .. Min((i + 1) * size, |data|)]
    decreases i
  {
    if |data| <= size {
      ChunksLast(data, size);
    } else if i > 0 {
      ChunksFront(data, size);
      ChunkAt(data[size..], size, i - 1);
      ShiftSlice(data, size, i);
    } else {
      ChunksFront(data, size);
    }
  }

  /** Bytes `(i-1)*size ..` of the input after its first piece are bytes `i*size ..`
      of the input. */
  lemma ShiftSlice(data: seq<Byte>, size: nat, i: nat)
    requires 0 < size < |data| && i > 0
    requires (i - 1) * size < |data| - size
    ensures i * size < |data|
    ensures data[size..][(i - 1) * size .. Min(i * size, |data| - size)]
            == data[i * size .. Min((i + 1) * size, |data|)]
  {
    ShiftProducts(i, size);
    var p := i * size;
    var lo, hi := p - size, Min(p, |data| - size);
    assert hi + size == Min(p + size, |data|);
    assert data[size..][lo..hi] == data[lo + size..hi + size];
  }

  lemma ShiftProducts(i: nat, size: nat)
    requires i > 0
    ensures (i - 1) * size + size == i * size
    ensures i * size + size == (i + 1) * size
  {
  }

  /** A chunk size of 0 returns the input as one piece (`test_chunk_pdf_zero_size`). */
  lemma ZeroSizeIsWhole(data: seq<Byte>)
    ensures ChunkPdf(data, 0) == [data]
  {
  }

  /** A chunk size at least the input length returns the non-empty input as one piece
      (`test_chunk_pdf_large_chunk_size`). */
  lemma {:induction false} LargeSizeIsWhole(data: seq<Byte>, chunkSize: nat)
    requires 0 < |data| <= chunkSize
    ensures ChunkPdf(data, chunkSize) == [data]
  {
    var r := ChunkPdf(data, chunkSize);
    CeilDivOne(|data|, chunkSize);
    ChunkAt(data, chunkSize, 0);
    assert r[0] == data[0..|data|];
  }

  /** With a positive size an empty input gives no pieces at all. */
  lemma EmptyInputNoPieces(chunkSize: nat)
    requires chunkSize > 0
    ensures ChunkPdf([], chunkSize) == []
  {
  }

  /** A piece is cut off the front of an input longer than the size. */
  lemma ChunksFront(data: seq<Byte>, size: nat)
    requires 0 < size < |data|
    ensures Chunks(data, size) == [data[..size]] + Chunks(data[size..], size)
  {
  }

  /** An input that fits in one piece is that piece. */
  lemma ChunksLast(data: seq<Byte>, size: nat)
    requires 0 < |data| <= size
    ensures Chunks(data, size) == [data]
  {
  }

  /** `test_chunk_pdf_exact_chunks`. */
  lemma ExactChunks()
    ensures ChunkPdf([1, 2, 3, 4, 5, 6], 2) == [[1, 2], [3, 4], [5, 6]]
  {
    var d: seq<Byte> := [1, 2, 3, 4, 5, 6];
    var e, f := d[2..], d[4..];
    assert e[2..] == f;
    ChunksLast(f, 2);
    ChunksFront(e, 2);
    ChunksFront(d, 2);
    assert d[..2] == [1, 2] && e[..2] == [3, 4] && f == [5, 6];
    assert Chunks(d, 2) == [[1, 2], [3, 4], [5, 6]];
    assert ChunkPdf(d, 2) == Chunks(d, 2);
  }

  /** `test_chunk_pdf_uneven_chunks`. */
  lemma UnevenChunks()
    ensures ChunkPdf([1, 2, 3, 4, 5], 2) == [[1, 2], [3, 4], [5]]
  {
    var d: seq<Byte> := [1, 2, 3, 4, 5];
    var e, f := d[2..], d[4..];
    assert e[2..] == f;
    ChunksLast(f, 2);
    ChunksFront(e, 2);
    ChunksFront(d, 2);
    assert d[..2] == [1, 2] && e[..2] == [3, 4] && f == [5];
    assert Chunks(d, 2) == [[1, 2], [3, 4], [5]];
    assert ChunkPdf(d, 2) == Chunks(d, 2);
  }

  /** `test_chunk_size_calculation`: 1000 bytes in pieces of 100 give 10 pieces. */
  lemma ThousandBytesByHundred(data: seq<Byte>)
    requires |data| == 1000
    ensures |ChunkPdf(data, 100)| == 10
  {
  }
}
