/**
 The front end's file cache as a value: a list of megabyte chunks, filled lazily, that stands for a
 flat file.

 `cache` below maps a chunk index to its buffer.  A byte of the flat file comes from the
 cached chunk if there is one, and from the stored file otherwise.
 */
module ChunkCache {
  import opened Prelude
  import opened Chunking

  // ---------------------------------------------------------------- the flat file

  type Cache = map<nat, Bytes>

  ghost predicate Full(cache: Cache) {
    forall n | n in cache :: |cache[n]| == CHUNK
  }

  function Index(o: nat): nat {
    o / CHUNK
  }

  function ByteAt(cache: Cache, disk: Bytes, o: nat): byte
    requires Full(cache)
  {
    if Index(o) in cache then cache[Index(o)][o % CHUNK]
    else if o < |disk| then disk[o]
    else 0
  }

  /** The file that cache and disk stand for together. */
  function Flat(cache: Cache, disk: Bytes, size: nat): Bytes
    requires Full(cache)
  {
    seq(size, o requires 0 <= o => ByteAt(cache, disk, o))
  }

  /** Every byte below `size` is cached or on disk. */
  ghost predicate Covered(cache: Cache, disk: Bytes, size: nat) {
    forall o: nat | o < size && Index(o) !in cache :: o < |disk|
  }

  function Overlay(file: Bytes, offset: nat, data: Bytes): Bytes
    requires offset <= |file|
  {
    file[..offset] + data + if offset + |data| < |file| then file[offset + |data|..] else []
  }

  /** A write changes the bytes it covers and no others, and makes the file longer where it goes past the end. */
  lemma OverlayAt(file: Bytes, offset: nat, data: Bytes, o: nat)
    requires offset <= |file| && o < |Overlay(file, offset, data)|
    ensures |Overlay(file, offset, data)| == Max(|file|, offset + |data|)
    ensures Overlay(file, offset, data)[o] == if offset <= o < offset + |data| then data[o - offset] else file[o]
  {
  }

  lemma ByteInChunk(n: nat, o: nat)
    ensures Index(o) == n <==> n * CHUNK <= o < n * CHUNK + CHUNK
    ensures Index(o) == n ==> o % CHUNK == o - n * CHUNK
  {
  }

  /** Fetching a chunk from disk does not change the file. */
  lemma FetchKeeps(cache: Cache, disk: Bytes, size: nat, n: nat, buffer: Bytes)
    requires Full(cache) && |buffer| == CHUNK && n !in cache && Covered(cache, disk, size)
    requires n * CHUNK < |disk| ==> var len := Min(CHUNK, size - n * CHUNK);
               0 <= len && n * CHUNK + len <= |disk| && buffer[..len] == disk[n * CHUNK..n * CHUNK + len]
    ensures Full(cache[n := buffer]) && Covered(cache[n := buffer], disk, size)
    ensures forall o: nat | o < size :: ByteAt(cache[n := buffer], disk, o) == ByteAt(cache, disk, o)
  {
    forall o: nat | o < size && Index(o) == n ensures ByteAt(cache[n := buffer], disk, o) == ByteAt(cache, disk, o) {
      ByteInChunk(n, o);
      var len := Min(CHUNK, size - n * CHUNK);
      assert buffer[..len][o - n * CHUNK] == disk[n * CHUNK..n * CHUNK + len][o - n * CHUNK];
    }
  }

  /** How much of chunk `n` a fetch reads, and that the disk has it. */
  lemma FetchFits(cache: Cache, disk: Bytes, size: nat, n: nat)
    requires n !in cache && Covered(cache, disk, size) && n * CHUNK < |disk| <= size
    ensures n * CHUNK + Min(CHUNK, size - n * CHUNK) <= |disk|
  {
    var last := n * CHUNK + Min(CHUNK, size - n * CHUNK) - 1;
    ByteInChunk(n, last);
  }

  /** Writing into a cached chunk changes the bytes written and no others. */
  lemma WriteKeeps(cache: Cache, disk: Bytes, n: nat, shift: nat, data: Bytes, o: nat)
    requires Full(cache) && n in cache && shift + |data| <= CHUNK
    ensures var buffer := cache[n][..shift] + data + cache[n][shift + |data|..];
            && Full(cache[n := buffer])
            && ByteAt(cache[n := buffer], disk, o) ==
               var at := n * CHUNK + shift;
               if at <= o < at + |data| then data[o - at] else ByteAt(cache, disk, o)
  {
    ByteInChunk(n, o);
  }

  // ---------------------------------------------------------------- the chunk list

  datatype Chunk = Chunk(base: nat, buffer: Bytes, size: nat, isDirty: bool, isValid: bool)

  ghost predicate InList(chunks: seq<Chunk>, n: nat) {
    exists i :: 0 <= i < |chunks| && chunks[i].base == n * CHUNK
  }

  /** The list holds the chunks of `cache`, each once, and none that starts beyond `size`. */
  ghost predicate Listed(chunks: seq<Chunk>, cache: Cache, size: nat) {
    && (forall i | 0 <= i < |chunks| ::
          && chunks[i].base == Index(chunks[i].base) * CHUNK && chunks[i].base <= size
          && Index(chunks[i].base) in cache && cache[Index(chunks[i].base)] == chunks[i].buffer)
    && (forall i, j | 0 <= i < j < |chunks| :: chunks[i].base != chunks[j].base)
    && (forall n | n in cache :: InList(chunks, n))
  }

  lemma BufferOf(chunks: seq<Chunk>, cache: Cache, size: nat, i: nat, offset: nat)
    requires Listed(chunks, cache, size) && Full(cache) && i < |chunks| && chunks[i].base == Index(offset) * CHUNK
    ensures Index(chunks[i].base) == Index(offset) && Index(offset) in cache && cache[Index(offset)] == chunks[i].buffer
    ensures |chunks[i].buffer| == CHUNK && offset - chunks[i].base == offset % CHUNK
  {
    ByteInChunk(Index(offset), chunks[i].base);
    ByteInChunk(Index(offset), offset);
  }

  lemma AppendListed(chunks: seq<Chunk>, cache: Cache, size: nat, c: Chunk)
    requires Listed(chunks, cache, size) && c.base == Index(c.base) * CHUNK && c.base <= size && Index(c.base) !in cache
    ensures Listed(chunks + [c], cache[Index(c.base) := c.buffer], size)
  {
    hide Index;
    var chunks', cache' := chunks + [c], cache[Index(c.base) := c.buffer];
    forall n | n in cache' ensures InList(chunks', n) {
      if n == Index(c.base) {
        assert chunks'[|chunks|].base == n * CHUNK;
      } else {
        assert InList(chunks, n);
        var i :| 0 <= i < |chunks| && chunks[i].base == n * CHUNK;
        assert chunks'[i] == chunks[i];
      }
    }
  }

  lemma UpdateListed(chunks: seq<Chunk>, cache: Cache, size: nat, i: nat, c: Chunk)
    requires Listed(chunks, cache, size) && i < |chunks| && c.base == chunks[i].base
    ensures Listed(chunks[i := c], cache[Index(c.base) := c.buffer], size)
  {
    hide Index;
    var chunks', cache' := chunks[i := c], cache[Index(c.base) := c.buffer];
    forall n | n in cache' ensures InList(chunks', n) {
      assert InList(chunks, n);
      var j :| 0 <= j < |chunks| && chunks[j].base == n * CHUNK;
      assert chunks'[j].base == n * CHUNK;
    }
  }

  // ---------------------------------------------------------------- runs on the flat file

  datatype Op = OpenFile | WriteFile(offset: nat, data: Bytes) | ReadFile(offset: nat, size: nat)
              | FlushFile | ReleaseFile

  /** Writes leave no gap and reads stay within the file; both need an opener. */
  predicate LegalOn(size: nat, openers: int, op: Op) {
    match op
    case OpenFile => true
    case WriteFile(offset, data) => openers > 0 && offset <= size && offset + |data| < INT_LIMIT
    case ReadFile(offset, length) => openers > 0 && offset < size && offset + length <= size
    case FlushFile => openers > 0
    case ReleaseFile => openers > 0
  }

  function FlatStep(file: Bytes, op: Op): Bytes {
    if op.WriteFile? && op.offset <= |file| then Overlay(file, op.offset, op.data) else file
  }

  /** A step is a write of these bytes at this place, or leaves the file alone. */
  lemma FlatStepIs(file: Bytes, op: Op, o: nat)
    ensures !op.WriteFile? ==> FlatStep(file, op) == file
    ensures op.WriteFile? && op.offset <= |file| ==>
      && |FlatStep(file, op)| == Max(|file|, op.offset + |op.data|)
      && (o < |FlatStep(file, op)| ==>
            FlatStep(file, op)[o]
            == if op.offset <= o < op.offset + |op.data| then op.data[o - op.offset] else file[o])
  {
  }

  function FlatRun(file: Bytes, ops: seq<Op>): Bytes {
    if ops == [] then file else FlatStep(FlatRun(file, ops[..|ops| - 1]), ops[|ops| - 1])
  }

  function OpenStep(op: Op): int {
    if op.OpenFile? then 1 else if op.ReleaseFile? then -1 else 0
  }

  function Opened(ops: seq<Op>): int {
    if ops == [] then 0 else Opened(ops[..|ops| - 1]) + OpenStep(ops[|ops| - 1])
  }

  function Slice(file: Bytes, offset: nat, size: nat): Bytes {
    if offset + size <= |file| then file[offset..offset + size] else []
  }

  lemma SliceIs(file: Bytes, offset: nat, size: nat)
    requires offset + size <= |file|
    ensures Slice(file, offset, size) == file[offset..offset + size]
  {
  }

  lemma WrittenIsOverlay(cache: Cache, cache': Cache, disk: Bytes, size: nat, offset: nat, data: Bytes)
    requires Full(cache) && Full(cache') && offset <= size
    requires forall o: nat | o < Max(size, offset + |data|) ::
               ByteAt(cache', disk, o) ==
               if offset <= o < offset + |data| then data[o - offset] else ByteAt(cache, disk, o)
    ensures Flat(cache', disk, Max(size, offset + |data|)) == Overlay(Flat(cache, disk, size), offset, data)
  {
    hide ByteAt;
    var r, e := Flat(cache', disk, Max(size, offset + |data|)), Overlay(Flat(cache, disk, size), offset, data);
    assert |r| == |e|;
    forall o: nat | o < |r| ensures r[o] == e[o] {
      assert r[o] == ByteAt(cache', disk, o);
    }
  }

  lemma SlicesJoin(file: Bytes, a: nat, b: nat, c: nat)
    requires a <= b <= c <= |file|
    ensures file[a..b] + file[b..c] == file[a..c]
  {
  }

  /** A stretch of a cached chunk is that stretch of the file. */
  lemma PieceIsSlice(cache: Cache, disk: Bytes, size: nat, offset: nat, n: nat)
    requires Full(cache) && Index(offset) in cache && n <= CHUNK - offset % CHUNK && offset + n <= size
    ensures cache[Index(offset)][offset % CHUNK..offset % CHUNK + n] == Flat(cache, disk, size)[offset..offset + n]
  {
    var a, b := cache[Index(offset)][offset % CHUNK..offset % CHUNK + n], Flat(cache, disk, size)[offset..offset + n];
    forall k: nat | k < n ensures a[k] == b[k] {
      ByteInChunk(Index(offset), offset + k);
    }
  }

  lemma BufferFull(chunks: seq<Chunk>, cache: Cache, size: nat, i: nat)
    requires Listed(chunks, cache, size) && Full(cache) && i < |chunks|
    ensures |chunks[i].buffer| == CHUNK && chunks[i].base <= size
  {
  }

  /** A file that is stored as it stands stands for itself. */
  lemma FlatStored(cache: Cache, disk: Bytes, size: nat)
    requires Full(cache)
    ensures var flat := Flat(cache, disk, size);
      |flat| == size && Flat(cache, flat, size) == flat && Covered(cache, flat, size)
  {
    var flat := Flat(cache, disk, size);
    forall o: nat | o < size ensures ByteAt(cache, flat, o) == flat[o] {}
  }

  /** A write of `n` bytes at `offset`, within one cached chunk, keeps every byte of the file present. */
  lemma GrowCovered(cache: Cache, disk: Bytes, size: nat, offset: nat, n: nat, buffer: Bytes)
    requires Covered(cache, disk, size) && offset <= size && n <= CHUNK - offset % CHUNK
    ensures Covered(cache[Index(offset) := buffer], disk, Max(size, offset + n))
  {
    forall o: nat | size <= o < offset + n ensures Index(o) == Index(offset) {
      ByteInChunk(Index(offset), o);
    }
  }

  lemma ListedFurther(chunks: seq<Chunk>, cache: Cache, size: nat, size': nat)
    requires Listed(chunks, cache, size) && size <= size'
    ensures Listed(chunks, cache, size')
  {
  }

  /** A chunk that is not cached while the file grows was complete on disk before. */
  lemma WholeOrSame(cache: Cache, disk: Bytes, filesize: nat, size: nat, n: nat)
    requires n !in cache && Covered(cache, disk, size) && |disk| <= filesize <= size && n * CHUNK < |disk|
    ensures Min(CHUNK, filesize - n * CHUNK) == Min(CHUNK, size - n * CHUNK)
  {
    if filesize < size && |disk| < n * CHUNK + CHUNK {
      ByteInChunk(n, |disk|);
    }
  }
}
