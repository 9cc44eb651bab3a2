/**
 The read loop of `process_file`: the file is consumed in slices of at most
 `ChunkSize` bytes, and each slice is folded into a running CRC through the
 library's incremental call.
 */
module Chunks {
  import opened Crc32

  /** `CHUNK_SIZE`, 4 KiB. */
  const ChunkSize: nat := 4 * 1024

  /** `(chunk < left) ? chunk : left`, the size of the next slice. */
  function NextChunk(chunk: nat, left: nat): (n: nat)
    requires chunk > 0 && left > 0
    ensures 0 < n <= chunk && n <= left
    ensures n < chunk ==> n == left
  {
    if chunk < left then chunk else left
  }

  /**
   The CRC the loop ends with, continuing from `crc`, when `data` is what is
   left to read.  Chunking never changes the result: whatever the chunk size,
   it is the CRC of the whole remaining content.
   */
  function FoldChunks(crc: bv32, data: seq<Byte>, chunk: nat): (r: bv32)
    requires chunk > 0
    ensures r == Update(crc, data)
    decreases |data|
  {
    if |data| == 0 then crc
    else
      var n := NextChunk(chunk, |data|);
      assert data[..n] + data[n..] == data;
      UpdateAppend(crc, data[..n], data[n..]);
      FoldChunks(Update(crc, data[..n]), data[n..], chunk)
  }

  /** The CRC `process_file` stores for a file with this content. */
  function FileCrc(content: seq<Byte>): (r: bv32)
    ensures r == Checksum(content)
    ensures |content| == 0 ==> r == 0
  {
    FoldChunks(0, content, ChunkSize)
  }

  function Sum(s: seq<nat>): nat {
    if |s| == 0 then 0 else Sum(s[..|s| - 1]) + s[|s| - 1]
  }

  /**
   The loop itself.  Besides the CRC it returns `bytes_processed` at exit and
   the sizes of the slices it read, in order: they are positive, every one
   but the last is a full chunk, and together they cover the content exactly.
   */
  method ChunkedCrc(content: seq<Byte>, chunk: nat) returns (crc: bv32, processed: nat, sizes: seq<nat>)
    requires chunk > 0
    ensures processed == |content|
    ensures Sum(sizes) == |content|
    ensures forall i :: 0 <= i < |sizes| ==> 0 < sizes[i] <= chunk
    ensures forall i :: 0 <= i < |sizes| - 1 ==> sizes[i] == chunk
    ensures crc == Checksum(content)
  {
    crc := 0x0;
    processed := 0x0;
    sizes := [];
    while processed < |content|
      invariant processed <= |content|
      invariant Sum(sizes) == processed
      invariant forall i :: 0 <= i < |sizes| ==> 0 < sizes[i] <= chunk
      invariant forall i :: 0 <= i < |sizes| - 1 ==> sizes[i] == chunk
      invariant |sizes| > 0 && processed < |content| ==> sizes[|sizes| - 1] == chunk
      invariant crc == Update(0, content[..processed])
      decreases |content| - processed
    {
      var left := |content| - processed;
      var n := NextChunk(chunk, left);
      var slice := content[processed..processed + n];
      UpdateAppend(0, content[..processed], slice);
      assert content[..processed] + slice == content[..processed + n];
      crc := Update(crc, slice);
      assert (sizes + [n])[..|sizes|] == sizes;
      sizes := sizes + [n];
      processed := processed + n;
    }
    assert content[..processed] == content;
  }
}
