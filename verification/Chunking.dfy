/** Fixed-size chunking: src/chunking.rs. `usize` is 64 bits wide. */
module Chunking {
  import opened Base

  datatype ChunkerConfig = ChunkerConfig(algorithm: string, version: u32, parameters: map<string, u64>)

  const ALGORITHM := "fixed-size"
  const CHUNK_SIZE := "chunk_size"

  /** `from_config`: the chunk size a persisted configuration selects. */
  function FromConfig(config: ChunkerConfig): Result<u64> {
    if config.algorithm != ALGORITHM || config.version != 1 then Err
    else if |config.parameters| != 1 then Err
    else if CHUNK_SIZE !in config.parameters then Err
    else if config.parameters[CHUNK_SIZE] == 0 then Err
    else Ok(config.parameters[CHUNK_SIZE])
  }

  /** `config`: the persisted form of a chunk size. */
  function Config(size: u64): ChunkerConfig {
    ChunkerConfig(ALGORITHM, 1, map[CHUNK_SIZE := size])
  }

  /** A configuration is accepted exactly when it is the persisted form of a positive size. */
  lemma ConfigRoundTrip(config: ChunkerConfig, size: u64)
    ensures FromConfig(config) == Ok(size) <==>
      size != 0 && config == ChunkerConfig("fixed-size", 1, map["chunk_size" := size])
    ensures size != 0 ==> FromConfig(Config(size)) == Ok(size)
  {
    if FromConfig(config) == Ok(size) {
      assert config.parameters.Keys == {CHUNK_SIZE} by {
        assert |config.parameters.Keys - {CHUNK_SIZE}| == 0;
      }
      assert config.parameters == map[CHUNK_SIZE := size];
    }
  }

  /** `bytes.chunks(size)`. */
  function Chunks<T>(bytes: seq<T>, size: nat): seq<seq<T>>
    requires size > 0
  {
    if bytes == [] then []
    else if |bytes| <= size then [bytes]
    else [bytes[..size]] + Chunks(bytes[size..], size)
  }

  function Concat<T>(parts: seq<seq<T>>): seq<T> {
    if parts == [] then [] else parts[0] + Concat(parts[1..])
  }

  /** `locate`: the chunk holding an offset, and the position inside it. */
  function Locate(size: nat, offset: nat): (nat, nat)
    requires size > 0
  {
    (offset / size, offset % size)
  }

  lemma {:induction false} ChunksReassemble<T>(bytes: seq<T>, size: nat)
    requires size > 0
    ensures Concat(Chunks(bytes, size)) == bytes
    ensures forall chunk | chunk in Chunks(bytes, size) :: 0 < |chunk| <= size
    decreases |bytes|
  {
    if |bytes| > size {
      ChunksReassemble(bytes[size..], size);
      assert bytes == bytes[..size] + bytes[size..];
    } else if bytes != [] {
      assert Concat([bytes]) == bytes + Concat([]);
    }
  }

  function Min(a: int, b: int): int {
    if a < b then a else b
  }

  lemma MulStep(i: nat, size: nat)
    requires i > 0
    ensures (i - 1) * size + size == i * size
  {
  }

  lemma {:induction false} ChunkFrom<T>(bytes: seq<T>, size: nat, i: nat, start: nat)
    requires size > 0 && start == i * size
    ensures i < |Chunks(bytes, size)| <==> start < |bytes|
    ensures i < |Chunks(bytes, size)| ==> Chunks(bytes, size)[i] == bytes[start..Min(start + size, |bytes|)]
    decreases i
  {
    if i > 0 {
      MulStep(i, size);
      assert start >= size;
      if |bytes| > size {
        ChunkFrom(bytes[size..], size, i - 1, start - size);
        if start < |bytes| { SliceShift(bytes, size, start); }
      }
    }
  }

  lemma SliceShift<T>(bytes: seq<T>, size: nat, start: nat)
    requires size <= start < |bytes|
    ensures bytes[size..][start - size..Min(start, |bytes| - size)] == bytes[start..Min(start + size, |bytes|)]
  {
    var end := Min(start + size, |bytes|);
    assert Min(start, |bytes| - size) == end - size;
    assert bytes[size..][start - size..end - size] == bytes[start..end];
  }

  /** Chunk `i` is the slice from `i * size`, cut at the end of the input. */
  lemma ChunkAt<T>(bytes: seq<T>, size: nat, i: nat)
    requires size > 0
    ensures i < |Chunks(bytes, size)| <==> i * size < |bytes|
    ensures i < |Chunks(bytes, size)| ==>
      Chunks(bytes, size)[i] == bytes[i * size..Min(i * size + size, |bytes|)]
  {
    ChunkFrom(bytes, size, i, i * size);
  }

  /** The number of chunks is the length divided by the size, rounded up. */
  lemma ChunkCount<T>(bytes: seq<T>, size: nat)
    requires size > 0
    ensures |Chunks(bytes, size)| == (|bytes| + size - 1) / size
  {
    var n := |Chunks(bytes, size)|;
    ChunkAt(bytes, size, n);
    if n > 0 {
      ChunkAt(bytes, size, n - 1);
      MulStep(n, size);
      DivisionBounds(|bytes| + size - 1, size, n);
    } else {
      DivisionBounds(|bytes| + size - 1, size, 0);
    }
  }

  lemma DivisionBounds(x: nat, size: nat, q: nat)
    requires size > 0 && q * size <= x < q * size + size
    ensures x / size == q && x % size == x - q * size
  {
    var d, m := x / size, x % size;
    assert x == d * size + m;
    assert d < q ==> (d + 1) * size <= q * size;
    assert d > q ==> (q + 1) * size <= d * size;
  }

  /** `locate` splits every offset without loss, inside the input or beyond it. */
  lemma LocateSplits(size: nat, offset: nat)
    requires size > 0
    ensures Locate(size, offset).0 * size + Locate(size, offset).1 == offset
    ensures Locate(size, offset).1 < size
  {
  }

  /** Chunking agrees with `locate`: byte `offset` of the input is where `locate` says, and
      an offset past the end is past the end of the chunks too. */
  lemma LocateAgrees<T>(bytes: seq<T>, size: nat, offset: nat)
    requires size > 0
    ensures var (i, within) := Locate(size, offset);
      if offset < |bytes| then
        && i < |Chunks(bytes, size)| && within < |Chunks(bytes, size)[i]|
        && Chunks(bytes, size)[i][within] == bytes[offset]
      else
        i >= |Chunks(bytes, size)| || within >= |Chunks(bytes, size)[i]|
  {
    var (i, within) := Locate(size, offset);
    LocateSplits(size, offset);
    ChunkAt(bytes, size, i);
  }
}
