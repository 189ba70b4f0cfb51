/**
 The two halves of a file together: the front end's chunk cache above the enclave's transfers.

 A store encrypts the cached chunks and no others, each with a new key, into a file that has its new length
 already.  The stored ciphertext must nevertheless be right for the whole file.
 */
module FileStore {
  import opened Prelude
  import opened Chunking
  import opened ChunkCache
  import opened FileCrypto

  // ---------------------------------------------------------------- pieces

  /** A chunk that is not cached is stored already: it was there in full before the file grew. */
  lemma UncachedPiece(cache: Cache, disk: Bytes, size: nat, n: nat)
    requires Full(cache) && Covered(cache, disk, size) && n !in cache && n * CHUNK < size && |disk| <= size
    ensures n * CHUNK < |disk| && Min(n * CHUNK + CHUNK, size) == Min(n * CHUNK + CHUNK, |disk|)
    ensures Piece(Flat(cache, disk, size), n) == Piece(disk, n)
  {
    ByteInChunk(n, n * CHUNK);
    ByteInChunk(n, Min(n * CHUNK + CHUNK, size) - 1);
    var a, b := Piece(Flat(cache, disk, size), n), Piece(disk, n);
    forall k: nat | k < |a| ensures a[k] == b[k] { ByteInChunk(n, n * CHUNK + k); }
  }

  lemma CachedPiece(cache: Cache, disk: Bytes, size: nat, n: nat)
    requires Full(cache) && n in cache && n * CHUNK < size
    ensures Piece(Flat(cache, disk, size), n) == cache[n][..Min(size - n * CHUNK, CHUNK)]
  {
    var a, b := Piece(Flat(cache, disk, size), n), cache[n][..Min(size - n * CHUNK, CHUNK)];
    forall k: nat | k < |a| ensures a[k] == b[k] { ByteInChunk(n, n * CHUNK + k); }
  }

  lemma GrownPiece(text: Bytes, tail: Bytes, n: nat)
    requires n * CHUNK < |text| && Min(n * CHUNK + CHUNK, |text + tail|) == Min(n * CHUNK + CHUNK, |text|)
    ensures Piece(text + tail, n) == Piece(text, n)
  {
  }

  lemma OverlaidPiece(text: Bytes, n: nat, out: Bytes, m: nat)
    requires n * CHUNK <= |text| && |out| == Min(|text| - n * CHUNK, CHUNK) && m * CHUNK < |text|
    ensures |Overlay(text, n * CHUNK, out)| == |text|
    ensures Piece(Overlay(text, n * CHUNK, out), m) == if m == n then out else Piece(text, m)
  {
    var a, b := Piece(Overlay(text, n * CHUNK, out), m), if m == n then out else Piece(text, m);
    assert |a| == |b|;
    forall k: nat | k < |a| ensures a[k] == b[k] {
      ByteInChunk(m, m * CHUNK + k);
      ByteInChunk(n, m * CHUNK + k);
    }
  }

  // ---------------------------------------------------------------- a store

  /** One of the first `k` chunks of the list is chunk `n`. */
  ghost predicate Written(chunks: seq<Chunk>, k: nat, n: nat) {
    exists j :: 0 <= j < k <= |chunks| && chunks[j].base == n * CHUNK
  }

  /** Piece `n` when the first `k` chunks have been encrypted: done, or as it was before the store. */
  ghost predicate Midway(c: Cipher, chunks: seq<Chunk>, k: nat, flat: Bytes, was: seq<Context>, grown: Bytes,
                         contexts: seq<Context>, text: Bytes, n: nat)
    requires n * CHUNK < |flat| == |text| == |grown|
  {
    if Written(chunks, k, n) then SealedPiece(c, contexts, flat, text, n)
    else n < |contexts| && n < |was| && contexts[n] == was[n] && Piece(text, n) == Piece(grown, n)
  }

  ghost predicate AllMidway(c: Cipher, chunks: seq<Chunk>, k: nat, flat: Bytes, was: seq<Context>, grown: Bytes,
                            contexts: seq<Context>, text: Bytes)
  {
    && |flat| == |text| == |grown|
    && forall n: nat | n * CHUNK < |flat| :: Midway(c, chunks, k, flat, was, grown, contexts, text, n)
  }

  /** Encrypting chunk `k` of the list gets one chunk further. */
  lemma OneFurther(c: Cipher, chunks: seq<Chunk>, k: nat, cache: Cache, disk: Bytes, size: nat, was: seq<Context>,
                   grown: Bytes, contexts: seq<Context>, text: Bytes, key: Key, out: Bytes)
    requires Full(cache) && Listed(chunks, cache, size) && k < |chunks| && Index(chunks[k].base) < |contexts|
    requires AllMidway(c, chunks, k, Flat(cache, disk, size), was, grown, contexts, text)
    requires |chunks[k].buffer| == CHUNK && chunks[k].base <= size
    requires out == Encrypt(c, key, 0, chunks[k].buffer[..Min(size - chunks[k].base, CHUNK)])
    ensures AllMidway(c, chunks, k + 1, Flat(cache, disk, size), was, grown,
                      contexts[Index(chunks[k].base) := Sealing(c, key, out)], Overlay(text, chunks[k].base, out))
  {
    hide Flat, Listed, Sealing, Overlay;
    var flat, n := Flat(cache, disk, size), Index(chunks[k].base);
    assert |flat| == size by { FlatLength(cache, disk, size); }
    assert chunks[k].base == n * CHUNK && n in cache && cache[n] == chunks[k].buffer by {
      ListedAt(chunks, cache, size, k);
    }
    assert |out| == Min(size - n * CHUNK, CHUNK);
    var contexts', text' := contexts[n := Sealing(c, key, out)], Overlay(text, n * CHUNK, out);
    assert |text'| == |text| by { OverlaidLength(text, n * CHUNK, out); }
    forall m: nat | m * CHUNK < size ensures Midway(c, chunks, k + 1, flat, was, grown, contexts', text', m) {
      assert Midway(c, chunks, k, flat, was, grown, contexts, text, m);
      OverlaidPiece(text, n, out, m);
      WrittenNext(chunks, k, m);
      if m == n { CachedPiece(cache, disk, size, n); SealingKey(c, key, out); }
    }
  }

  lemma FlatLength(cache: Cache, disk: Bytes, size: nat)
    requires Full(cache)
    ensures |Flat(cache, disk, size)| == size
  {
  }

  lemma OverlaidLength(text: Bytes, at: nat, out: Bytes)
    requires at + |out| <= |text|
    ensures |Overlay(text, at, out)| == |text|
  {
  }

  lemma SealingKey(c: Cipher, key: Key, out: Bytes)
    ensures Sealing(c, key, out).key == key
  {
  }

  lemma ListedAt(chunks: seq<Chunk>, cache: Cache, size: nat, k: nat)
    requires Listed(chunks, cache, size) && k < |chunks|
    ensures var n := Index(chunks[k].base);
      chunks[k].base == n * CHUNK <= size && n in cache && cache[n] == chunks[k].buffer
  {
  }

  lemma WrittenNext(chunks: seq<Chunk>, k: nat, n: nat)
    requires k < |chunks|
    ensures Written(chunks, k + 1, n) <==> Written(chunks, k, n) || chunks[k].base == n * CHUNK
  {
  }

  /** With every cached chunk encrypted, the whole file is sealed. */
  lemma AllSealed(c: Cipher, chunks: seq<Chunk>, cache: Cache, disk: Bytes, size: nat, was: seq<Context>,
                  before: seq<Context>,
                  text0: Bytes, tail: Bytes, contexts: seq<Context>, text: Bytes)
    requires Full(cache) && Covered(cache, disk, size) && Listed(chunks, cache, size) && |disk| <= size
    requires AllMidway(c, chunks, |chunks|, Flat(cache, disk, size), was, text0 + tail, contexts, text)
    requires Sealed(c, before, disk, text0) && forall n | 0 <= n < Min(|was|, |before|) :: was[n] == before[n]
    ensures Sealed(c, contexts, Flat(cache, disk, size), text)
  {
    hide Flat, Listed, Covered, Sealing, Encrypt;
    var flat := Flat(cache, disk, size);
    assert |flat| == size by { FlatLength(cache, disk, size); }
    forall n: nat | n * CHUNK < size ensures SealedPiece(c, contexts, flat, text, n) {
      assert Midway(c, chunks, |chunks|, flat, was, text0 + tail, contexts, text, n);
      if n in cache {
        CachedIsListed(chunks, cache, size, n);
      } else if !Written(chunks, |chunks|, n) {
        UncachedPiece(cache, disk, size, n);
        GrownPiece(text0, tail, n);
        assert SealedPiece(c, before, disk, text0, n);
      }
    }
  }

  lemma CachedIsListed(chunks: seq<Chunk>, cache: Cache, size: nat, n: nat)
    requires Listed(chunks, cache, size) && n in cache
    ensures Written(chunks, |chunks|, n)
  {
    assert InList(chunks, n);
    var i :| 0 <= i < |chunks| && chunks[i].base == n * CHUNK;
  }

  lemma NoneWritten(c: Cipher, chunks: seq<Chunk>, flat: Bytes, contexts: seq<Context>, text: Bytes)
    requires |flat| == |text| && |contexts| == ChunkNumber(|flat|) + 1
    ensures AllMidway(c, chunks, 0, flat, contexts, text, contexts, text)
  {
    ChunkNumberIs(|flat|);
  }

  lemma MidwayLength(c: Cipher, chunks: seq<Chunk>, k: nat, flat: Bytes, was: seq<Context>, grown: Bytes,
                     contexts: seq<Context>, text: Bytes)
    requires AllMidway(c, chunks, k, flat, was, grown, contexts, text)
    ensures |text| == |flat|
  {
  }

  /** The bytes a fetch asks for are the enclave's chunk, and they open to the stored file's. */
  lemma PieceOpens(c: Cipher, node: Filenode, disk: Bytes, text: Bytes, base: nat, size: nat)
    requires Kept(c, node, disk, text) && base % CHUNK == 0 && size <= CHUNK && base + size <= |disk| == |text|
    requires size < CHUNK ==> base + size == |disk|
    ensures size == Min(|disk| - base, CHUNK)
    ensures 0 < size ==> var n := base / CHUNK;
      && n < |node.contexts| && Decrypt(c, node.contexts[n].key, 0, text[base..base + size]) == disk[base..base + size]
      && node.contexts[n].mac == c.tag(node.contexts[n].key, text[base..base + size])
  {
    hide Encrypt, Decrypt;
    if 0 < size {
      var n := base / CHUNK;
      assert n * CHUNK == base && SealedPiece(c, node.contexts, disk, text, n);
      assert Piece(disk, n) == disk[base..base + size] && Piece(text, n) == text[base..base + size];
      DecryptEncrypt(c, node.contexts[n].key, 0, Piece(disk, n));
    }
  }

  /** A seek and an update that decrypt `size` bytes at `base`. */
  method DecryptAt(c: Cipher, node: Filenode, ghost disk: Bytes, text: Bytes, base: nat, size: nat)
    returns (r: Option<Bytes>)
    requires Kept(c, node, disk, text) && size <= CHUNK && base + size <= |disk| == |text| < INT_LIMIT
    requires size < CHUNK ==> base + size == |disk|
    ensures r == if base % CHUNK != 0 then None else Some(disk[base..base + size])
  {
    hide Sealed, Decrypt, Inverse;
    ChunkNumberIs(base);
    ChunkNumberIs(|disk|);
    var x := new Transfer(c, false, node.filesize, node.encryptedLength, node.contexts);
    var ok := x.Seek(base, 0);
    if !ok { return None; }
    var piece := text[base..base + size];
    assert piece[..size] == piece && [] + piece == piece;
    PieceOpens(c, node, disk, text, base, size);
    LengthKept(c, x.contexts[x.current].key, piece);
    var status, out := x.Update(piece);
    if status != Ok { return None; }
    r := Some(out);
  }

  /** When the file has grown its last byte is cached, so that encryption has reached the end. */
  lemma EndIsEncrypted(chunks: seq<Chunk>, cache: Cache, disk: Bytes, size: nat, length: nat)
    requires Covered(cache, disk, size) && Listed(chunks, cache, size) && |disk| <= length <= size
    requires forall j | 0 <= j < |chunks| :: Min(chunks[j].base + CHUNK, size) <= length
    ensures length == size
  {
    if |disk| < size {
      var n := Index(size - 1);
      ByteInChunk(n, size - 1);
      assert InList(chunks, n);
      var j :| 0 <= j < |chunks| && chunks[j].base == n * CHUNK;
    }
  }

  lemma SealedLength(c: Cipher, contexts: seq<Context>, plain: Bytes, text: Bytes)
    requires Sealed(c, contexts, plain, text)
    ensures |text| == |plain|
  {
  }

  /** Every byte that is stored is encrypted with the key of its megabyte and its place there. */
  lemma KeptBytes(c: Cipher, node: Filenode, disk: Bytes, text: Bytes)
    requires Kept(c, node, disk, text)
    ensures forall o | 0 <= o < |disk| ::
      && |text| == |disk| && o / 1048576 < |node.contexts|
      && text[o] == c.enc(node.contexts[o / 1048576].key, o % 1048576, disk[o])
  {
    hide Sealed, Inverse;
    forall o | 0 <= o < |disk|
      ensures && |text| == |disk| && o / 1048576 < |node.contexts|
              && text[o] == c.enc(node.contexts[o / 1048576].key, o % 1048576, disk[o])
    {
      SealedByte(c, node.contexts, disk, text, o);
    }
  }

  /** Chunk `n` has this key now, and the other chunks keep their records. */
  ghost predicate Rekeyed(before: seq<Context>, after: seq<Context>, n: nat, key: Key) {
    n < |before| == |after| && after == before[n := after[n]] && after[n].key == key
  }

  /** The first `k` chunks of the list have the keys drawn for them; chunks that are not among them, the old ones. */
  ghost predicate Keyed(chunks: seq<Chunk>, k: nat, newKey: nat -> Key, before: seq<Context>, after: seq<Context>) {
    && k <= |chunks| && |before| == |after|
    && (forall j | 0 <= j < k :: KeyedAt(chunks, j, newKey, after))
    && forall n | 0 <= n < |after| && !Written(chunks, k, n) :: after[n] == before[n]
  }

  ghost predicate KeyedAt(chunks: seq<Chunk>, j: nat, newKey: nat -> Key, after: seq<Context>)
    requires j < |chunks|
  {
    Index(chunks[j].base) < |after| && after[Index(chunks[j].base)].key == newKey(j)
  }

  lemma KeyedNext(chunks: seq<Chunk>, cache: Cache, size: nat, k: nat, newKey: nat -> Key, before: seq<Context>,
                  now: seq<Context>)
    requires Listed(chunks, cache, size) && Keyed(chunks, k, newKey, before, now) && k < |chunks|
    ensures forall after :: Rekeyed(now, after, Index(chunks[k].base), newKey(k)) ==>
      Keyed(chunks, k + 1, newKey, before, after)
  {
    hide Index;
    var n := Index(chunks[k].base);
    forall after | Rekeyed(now, after, n, newKey(k)) ensures Keyed(chunks, k + 1, newKey, before, after) {
      forall j | 0 <= j < k ensures KeyedAt(chunks, j, newKey, after) {
        assert KeyedAt(chunks, j, newKey, now) && chunks[j].base != chunks[k].base;
      }
      forall m | 0 <= m < |after| && !Written(chunks, k + 1, m) ensures after[m] == before[m] {
        WrittenNext(chunks, k, m);
      }
    }
  }

  lemma NoneKeyed(chunks: seq<Chunk>, newKey: nat -> Key, contexts: seq<Context>)
    ensures Keyed(chunks, 0, newKey, contexts, contexts)
  {
  }

  // ---------------------------------------------------------------- the file as the front end has it

  class Inode {
    var filesize: nat
    var onDiskSize: nat
    var chunks: seq<Chunk>
    var openers: nat
    var isDirty: bool
    var isDeleted: bool

    /** What is stored: the enclave's record of the file and the ciphertext. */
    const cipher: Cipher
    const node: Filenode
    var text: Bytes

    /** The plaintext of the stored file, and the chunks of the list by their index. */
    ghost var disk: Bytes
    ghost var cache: Cache

    /** The parts of the invariant that also hold within a write that has reached `size`. */
    ghost predicate Holds(size: nat)
      reads this, node
    {
      && Kept(cipher, node, disk, text)
      && |disk| == onDiskSize <= filesize <= size < INT_LIMIT
      && Full(cache) && Covered(cache, disk, size) && Listed(chunks, cache, size)
    }

    ghost predicate Valid()
      reads this, node
    {
      && Holds(filesize)
      && (!isDirty && !isDeleted ==> disk == Contents())
      && (openers == 0 && !isDeleted ==> !isDirty)
    }

    /** The flat file. */
    ghost function Contents(): Bytes
      requires Full(cache)
      reads this
    {
      Flat(cache, disk, filesize)
    }

    /** An inode as a first `stat` fills it in. */
    constructor (cipher: Cipher, node: Filenode, text: Bytes, ghost stored: Bytes)
      requires |stored| < INT_LIMIT && Kept(cipher, node, stored, text)
      ensures Valid() && Contents() == stored == disk && openers == 0 && !isDirty && !isDeleted
      ensures this.cipher == cipher && this.node == node
    {
      hide Sealed, Inverse;
      this.cipher, this.node, this.text, this.disk := cipher, node, text, stored;
      filesize, onDiskSize, openers := node.filesize, node.filesize, 0;
      chunks, isDirty, isDeleted, cache := [], false, false, map[];
    }

    /** Looks for the chunk that holds `offset`. */
    method FindChunk(offset: nat, ghost size: nat) returns (i: nat)
      requires Holds(size)
      ensures i <= |chunks|
      ensures if i < |chunks| then chunks[i].base == Index(offset) * CHUNK else Index(offset) !in cache
    {
      ChunkNumberIs(offset);
      var base := ChunkNumber(offset) * CHUNK;
      i := 0;
      while i < |chunks| && chunks[i].base != base
        invariant i <= |chunks|
        invariant forall j | 0 <= j < i :: chunks[j].base != base
      {
        i := i + 1;
      }
      assert Index(offset) in cache ==> InList(chunks, Index(offset));
    }

    /**
     Decrypts a chunk of the stored file into the front of `buffer`.  The front end asks for as much as its own size
     says, the enclave gives as much as its record says; where the stored file has it all these are the same.
     */
    method FetchChunk(base: nat, buffer: Bytes) returns (r: Option<Chunk>)
      requires |buffer| == CHUNK && |disk| <= filesize && base <= filesize < INT_LIMIT
      requires Kept(cipher, node, disk, text)
      ensures var len := Min(CHUNK, filesize - base);
        r == if base + len > |disk| || base % CHUNK != 0 then None
             else Some(Chunk(base, disk[base..base + len] + buffer[len..], len, false, false))
    {
      hide Sealed, Inverse;
      assert |text| == |disk| by { SealedLength(cipher, node.contexts, disk, text); }
      CMinIsMin(CHUNK, filesize - base);
      var size := CMin(CHUNK, filesize - base);
      if base + size > |text| { return None; }
      var out := DecryptAt(cipher, node, disk, text, base, size);
      if out.None? { return None; }
      r := Some(Chunk(base, out.value + buffer[|out.value|..], |out.value|, false, false));
    }

    /** Finds the chunk for `offset`, adding it to the list first if it is not there. */
    method TryAddChunk(offset: nat, ghost size: nat) returns (ok: bool, i: nat)
      requires Holds(size) && offset <= size
      modifies `chunks, `cache
      ensures ok && Holds(size)
      ensures i < |chunks| && chunks[i].base == Index(offset) * CHUNK
      ensures forall o: nat | o < size :: ByteAt(cache, disk, o) == old(ByteAt(cache, disk, o))
    {
      hide Kept, Covered, Listed, ByteAt;
      i := FindChunk(offset, size);
      if i < |chunks| { return true, i; }
      ChunkNumberIs(offset);
      var base := ChunkNumber(offset) * CHUNK;
      assert |seq<byte>(CHUNK, _ => 0)| == CHUNK;
      var junk: Bytes :| |junk| == CHUNK;
      var chunk := Chunk(base, junk, 0, false, false);
      if base < onDiskSize {
        WholeOrSame(cache, disk, filesize, size, Index(offset));
        FetchFits(cache, disk, size, Index(offset));
        var fetched := FetchChunk(base, junk);
        if fetched.None? { return false, i; }
        chunk := fetched.value;
      }
      FetchKeeps(cache, disk, size, Index(offset), chunk.buffer);
      AppendListed(chunks, cache, size, chunk.(isValid := true));
      i := |chunks|;
      cache := cache[Index(base) := chunk.buffer];
      chunks := chunks + [chunk.(isValid := true)];
      ok := true;
    }

    /** Copies the part of `data` that fits into chunk `i`, which holds `offset`. */
    method UpdateChunk(i: nat, offset: nat, data: Bytes, ghost size: nat) returns (n: nat)
      requires Holds(size) && i < |chunks| && chunks[i].base == Index(offset) * CHUNK && offset <= size
      requires |data| <= CHUNK && offset + |data| < INT_LIMIT
      modifies `chunks, `cache, `isDirty
      ensures n == Min(|data|, CHUNK - offset % CHUNK) && isDirty
      ensures Holds(Max(size, offset + n))
      ensures forall o: nat | o < Max(size, offset + n) ::
                ByteAt(cache, disk, o) ==
                if offset <= o < offset + n then data[o - offset] else old(ByteAt(cache, disk, o))
    {
      hide Covered, Listed, ByteAt, Kept;
      ghost var c0 := cache;
      var chunk := chunks[i];
      var shift := offset - chunk.base;
      CMinIsMin(|data|, CHUNK - shift);
      n := CMin(|data|, CHUNK - shift);
      BufferOf(chunks, cache, size, i, offset);
      chunk := chunk.(buffer := chunk.buffer[..shift] + data[..n] + chunk.buffer[shift + n..],
                      size := n + shift, isDirty := true);
      GrowCovered(cache, disk, size, offset, n, chunk.buffer);
      UpdateListed(chunks, cache, size, i, chunk);
      chunks := chunks[i := chunk];
      cache := cache[Index(offset) := chunk.buffer];
      ListedFurther(chunks, cache, size, Max(size, offset + n));
      isDirty := true;
      forall o: nat
        ensures ByteAt(cache, disk, o) == if offset <= o < offset + n then data[o - offset] else ByteAt(c0, disk, o)
      {
        WriteKeeps(c0, disk, Index(offset), shift, data[..n], o);
      }
    }

    /** Writes `data` at `offset`, which is not beyond the end of the file. */
    method Write(offset: nat, data: Bytes) returns (ok: bool, written: nat)
      requires Valid() && openers > 0 && offset <= filesize && offset + |data| < INT_LIMIT
      modifies `filesize, `chunks, `cache, `isDirty
      ensures Valid() && ok && written == |data| && isDirty
      ensures Contents() == Overlay(old(Contents()), offset, data)
    {
      hide Covered, Listed, ByteAt, Kept;
      written, ok := 0, true;
      ghost var size: nat, c0, disk0 := filesize, cache, disk;
      var more := true;
      while more
        invariant written <= |data| && Holds(size) && size == Max(filesize, offset + written)
        invariant (written == |data| && isDirty) || more
        invariant more ==> written == 0 || written < |data|
        invariant ok && disk == disk0 && filesize == old(filesize)
        invariant forall o: nat | o < size ::
          ByteAt(cache, disk0, o) == if offset <= o < offset + written then data[o - offset] else ByteAt(c0, disk0, o)
        decreases more, |data| - written
      {
        var size0 := |data| - written;
        CMinIsMin(size0, CHUNK);
        var len := CMin(size0, CHUNK);
        var i;
        ok, i := TryAddChunk(offset + written, size);
        if !ok { return; }
        var n := UpdateChunk(i, offset + written, data[written..written + len], size);
        size := Max(size, offset + written + n);
        written := written + n;
        more := written < |data|;
      }
      if offset + written > filesize { filesize := offset + written; }
      WrittenIsOverlay(c0, cache, disk0, old(filesize), offset, data);
    }

    /** The chunk for `offset`; reading at or past the end needs a handle open for writing. */
    method LoadChunk(offset: nat, readWrite: bool) returns (ok: bool, i: nat)
      requires Valid() && (readWrite ==> offset <= filesize)
      modifies `chunks, `cache
      ensures Valid() && Contents() == old(Contents())
      ensures ok <==> offset < filesize || readWrite
      ensures ok ==> i < |chunks| && chunks[i].base == Index(offset) * CHUNK
    {
      hide Covered, Listed, ByteAt, Kept;
      if offset >= filesize && !readWrite { return false, 0; }
      ok, i := TryAddChunk(offset, filesize);
      assert Contents() == old(Contents());
    }

    /** A pointer into the chunk that holds `offset`, and how many of the `len` bytes it reaches. */
    method ReadDataPtr(offset: nat, len: nat, readWrite: bool) returns (r: Option<Bytes>)
      requires Valid() && offset + len <= filesize
      modifies `chunks, `cache
      ensures Valid() && Contents() == old(Contents())
      ensures filesize == 0 ==> r == Some([])
      ensures filesize > 0 && offset == filesize && !readWrite ==> r.None?
      ensures filesize > 0 && (offset < filesize || readWrite) ==>
                r == Some(Contents()[offset..offset + Min(len, CHUNK - offset % CHUNK)])
    {
      hide Covered, Listed, ByteAt, Kept;
      if filesize == 0 { return Some([]); }
      var ok, i := LoadChunk(offset, readWrite);
      if !ok { return None; }
      var chunk := chunks[i];
      BufferOf(chunks, cache, filesize, i, offset);
      var shift := offset - chunk.base;
      CMinIsMin(len, CHUNK - shift);
      var n := CMin(len, CHUNK - shift);
      r := Some(chunk.buffer[shift..shift + n]);
      PieceIsSlice(cache, disk, filesize, offset, n);
    }

    /** Copies `size` bytes chunk by chunk. */
    method Read(offset: nat, size: nat, readWrite: bool) returns (r: Option<Bytes>)
      requires Valid() && offset + size <= filesize
      modifies `chunks, `cache
      ensures Valid() && Contents() == old(Contents())
      ensures r == if filesize == 0 || offset < filesize || readWrite
                   then Some(old(Contents())[offset..offset + size]) else None
    {
      hide Covered, Listed, ByteAt, Full, Kept;
      if filesize == 0 { return Some([]); }
      var out: Bytes := [];
      var more := true;
      while more
        invariant Valid() && Contents() == old(Contents()) && |out| <= size
        invariant out == Contents()[offset..offset + |out|]
        invariant if more then |out| == 0 || |out| < size else |out| == size
        invariant !more ==> filesize == 0 || offset < filesize || readWrite
        decreases more, size - |out|
      {
        CMinIsMin(size - |out|, CHUNK);
        var len := CMin(size - |out|, CHUNK);
        var piece := ReadDataPtr(offset + |out|, len, readWrite);
        if piece.None? { return None; }
        SlicesJoin(Contents(), offset, offset + |out|, offset + |out| + |piece.value|);
        out := out + piece.value;
        more := |out| < size;
      }
      r := Some(out);
    }

    /** The read request of the file system: one piece, or two where the range crosses a chunk boundary. */
    method FuseRead(offset: nat, size: nat, readWrite: bool) returns (r: Option<Bytes>)
      requires Valid() && offset + size <= filesize
      modifies `chunks, `cache
      ensures Valid() && Contents() == old(Contents())
      ensures filesize == 0 || offset < filesize || readWrite ==>
                r == Some(old(Contents())[offset..offset + Min(size, 2 * CHUNK - offset % CHUNK)])
      ensures !(filesize == 0 || offset < filesize || readWrite) ==> r.None?
    {
      hide Covered, Listed, ByteAt, Kept;
      var first := ReadDataPtr(offset, size, readWrite);
      if first.None? { return None; }
      if |first.value| == size { return first; }
      var next := offset + |first.value|;
      assert next % CHUNK == 0;
      var second := ReadDataPtr(next, size - |first.value|, readWrite);
      if second.None? { return None; }
      SlicesJoin(Contents(), offset, next, next + |second.value|);
      r := Some(first.value + second.value);
    }

    /** Encrypts chunk `k` of the list in one update, over what was stored there. */
    method EncryptChunk(x: Transfer, k: nat, text0: Bytes, key: Key, ghost was: seq<Context>, ghost grown: Bytes)
      returns (out: Bytes)
      requires Full(cache) && Listed(chunks, cache, filesize) && k < |chunks|
      requires x.Valid() && x.cipher == cipher && x.encrypting && x.chunkLeft == 0
      requires x.filesize == filesize && |x.contexts| == ChunkNumber(filesize) + 1
      requires AllMidway(cipher, chunks, k, Contents(), was, grown, x.contexts, text0)
      modifies x
      ensures x.Valid() && x.chunkLeft == 0 && x.filesize == filesize && |x.contexts| == old(|x.contexts|)
      ensures AllMidway(cipher, chunks, k + 1, Contents(), was, grown, x.contexts, out)
      ensures x.encryptedLength == Max(old(x.encryptedLength), Min(chunks[k].base + CHUNK, filesize))
      ensures Rekeyed(old(x.contexts), x.contexts, Index(chunks[k].base), key)
    {
      hide Flat, Listed, Sealing, Encrypt, Overlay, Piece, AllMidway, Full;
      FlatLength(cache, disk, filesize);
      var chunk := chunks[k];
      BufferFull(chunks, cache, filesize, k);
      ListedAt(chunks, cache, filesize, k);
      ChunkNumberIs(chunk.base);
      ChunkNumberIs(filesize);
      CMinIsMin(CHUNK, filesize - chunk.base);
      var size := CMin(CHUNK, filesize - chunk.base);
      ghost var contexts := x.contexts;
      var piece := EncryptPiece(x, chunk.buffer[..size], ChunkNumber(chunk.base), key, [size]);
      OneFurther(cipher, chunks, k, cache, disk, filesize, was, grown, contexts, text0, key, piece);
      MidwayLength(cipher, chunks, k, Contents(), was, grown, contexts, text0);
      SealingKey(cipher, key, piece);
      out := Overlay(text0, chunk.base, piece);
    }

    /** Encrypts every cached chunk, in the order of the list, and nothing else. */
    method EncryptChunks(x: Transfer, grown: Bytes, newKey: nat -> Key) returns (out: Bytes)
      requires Full(cache) && Covered(cache, disk, filesize) && Listed(chunks, cache, filesize)
      requires x.Valid() && x.cipher == cipher && x.encrypting && x.chunkLeft == 0 && x.encryptedLength == |disk|
      requires |disk| <= x.filesize == filesize == |grown| && |x.contexts| == ChunkNumber(filesize) + 1
      modifies x
      ensures AllMidway(cipher, chunks, |chunks|, Contents(), old(x.contexts), grown, x.contexts, out)
      ensures |x.contexts| == old(|x.contexts|) && x.encryptedLength == filesize
      ensures Keyed(chunks, |chunks|, newKey, old(x.contexts), x.contexts)
    {
      hide Flat, Listed, Covered, Full, Kept;
      out := grown;
      FlatLength(cache, disk, filesize);
      assert AllMidway(cipher, chunks, 0, Contents(), x.contexts, grown, x.contexts, out) by {
        NoneWritten(cipher, chunks, Contents(), x.contexts, grown);
      }
      NoneKeyed(chunks, newKey, x.contexts);
      hide AllMidway, Keyed, Rekeyed;
      var k := 0;
      while k < |chunks|
        invariant k <= |chunks| && x.Valid() && x.chunkLeft == 0 && x.filesize == filesize
        invariant |x.contexts| == ChunkNumber(filesize) + 1 && |disk| <= x.encryptedLength <= filesize
        invariant AllMidway(cipher, chunks, k, Contents(), old(x.contexts), grown, x.contexts, out)
        invariant forall j | 0 <= j < k :: Min(chunks[j].base + CHUNK, filesize) <= x.encryptedLength
        invariant Keyed(chunks, k, newKey, old(x.contexts), x.contexts)
      {
        KeyedNext(chunks, cache, filesize, k, newKey, old(x.contexts), x.contexts);
        out := EncryptChunk(x, k, out, newKey(k), old(x.contexts), grown);
        k := k + 1;
      }
      EndIsEncrypted(chunks, cache, disk, filesize, x.encryptedLength);
    }

    /**
     Brings the stored file up to date, unless the inode is clean or deleted, or someone else
     still has it open.
     */
    method Store(generated: nat -> Context, newKey: nat -> Key)
      requires Valid() && openers > 0
      modifies `text, `disk, `onDiskSize, `isDirty, node
      ensures Valid() && (!isDeleted ==> Contents() == old(Contents()))
      ensures !isDirty <==> !old(isDirty) || isDeleted || openers == 1
      ensures !isDirty && !isDeleted ==> disk == Contents()
      ensures !old(isDirty) || isDeleted || openers > 1 ==> disk == old(disk) && text == old(text)
      ensures old(isDirty) && !isDeleted && openers == 1 ==>
        forall k | 0 <= k < |chunks| :: KeyedAt(chunks, k, newKey, node.contexts)
    {
      hide Flat, Listed, Covered, Sealing, Encrypt, Overlay, Piece, AllMidway, Sealed, Inverse;
      if !isDirty || isDeleted { isDirty := false; return; }
      if openers > 1 { return; }
      ghost var before, flat := node.contexts, Contents();
      assert |text| == |disk| by { SealedLength(cipher, before, disk, text); }
      ChunkNumberIs(filesize);
      ChunkNumberIs(|disk|);
      node.SetFilesize(filesize, generated);
      var x := new Transfer(cipher, true, node.filesize, node.encryptedLength, node.contexts);
      // the data file has its new length; the new bytes are arbitrary
      assert |seq<byte>(filesize - |text|, _ => 0)| == filesize - |text|;
      var tail: Bytes :| |tail| == filesize - |text|;
      ghost var was, text0 := node.contexts, text;
      text := EncryptChunks(x, text + tail, newKey);
      AllSealed(cipher, chunks, cache, disk, filesize, was, before, text0, tail, x.contexts, text);
      FlatStored(cache, disk, filesize);
      node.contexts, node.encryptedLength := x.contexts, x.encryptedLength;
      disk := flat;
      onDiskSize := filesize;
      isDirty := false;
    }

    /** A new handle on the file. */
    method Open()
      requires Valid()
      modifies `openers
      ensures Valid() && Contents() == old(Contents()) && openers == old(openers) + 1
    {
      openers := openers + 1;
    }

    /** Closing a handle stores first, which is effective for the last one. */
    method Release(generated: nat -> Context, newKey: nat -> Key)
      requires Valid() && openers > 0
      modifies `text, `disk, `onDiskSize, `isDirty, `openers, node
      ensures Valid() && (!isDeleted ==> Contents() == old(Contents())) && openers == old(openers) - 1
      ensures openers == 0 && !isDeleted ==> !isDirty && disk == Contents()
    {
      hide Flat, Listed, Covered, Kept;
      Store(generated, newKey);
      openers := openers - 1;
    }

    predicate Legal(op: Op)
      reads this
    {
      LegalOn(filesize, openers, op)
    }

    /**
     Any interleaving of opens, gap-free writes, in-range reads, flushes and releases acts on the flat file, though
     every chunk that is read is decrypted and every chunk that is stored is encrypted.  At every moment the
     ciphertext and the tags are right for the stored file, and whenever nobody has the file open that is the flat
     file.  The run stops in front of the first operation that is not legal.
     */
    method Run(ops: seq<Op>, generated: (nat, nat) -> Context, newKey: (nat, nat) -> Key) returns (seen: seq<Bytes>)
      requires Valid() && !isDeleted
      modifies this, node
      ensures Valid() && Kept(cipher, node, disk, text)
      ensures |seen| <= |ops| && (|seen| < |ops| ==> !Legal(ops[|seen|]))
      ensures Contents() == FlatRun(old(Contents()), ops[..|seen|])
      ensures openers == old(openers) + Opened(ops[..|seen|])
      ensures openers == 0 ==> !isDirty && disk == FlatRun(old(Contents()), ops[..|seen|])
      ensures forall k | 0 <= k < |seen| && ops[k].ReadFile? ::
                seen[k] == Slice(FlatRun(old(Contents()), ops[..k]), ops[k].offset, ops[k].size)
      ensures forall k | 0 <= k < |seen| && ops[k].ReadFile? ::
                ops[k].offset + ops[k].size <= |FlatRun(old(Contents()), ops[..k])| && |seen[k]| == ops[k].size
      ensures |seen| < |ops| ==> match ops[|seen|]
        case OpenFile => false
        case WriteFile(at, data) => openers > 0 ==> at > filesize || at + |data| >= 0x8000_0000
        case ReadFile(at, n) => openers > 0 ==> at >= filesize || at + n > filesize
        case _ => openers == 0
    {
      hide Covered, Listed, ByteAt, Flat, Overlay, Kept;
      seen := [];
      while |seen| < |ops| && Legal(ops[|seen|])
        invariant |seen| <= |ops| && Valid() && !isDeleted
        invariant Contents() == FlatRun(old(Contents()), ops[..|seen|])
        invariant openers == old(openers) + Opened(ops[..|seen|])
        invariant forall k | 0 <= k < |seen| && ops[k].ReadFile? ::
          seen[k] == Slice(FlatRun(old(Contents()), ops[..k]), ops[k].offset, ops[k].size)
        invariant forall k | 0 <= k < |seen| && ops[k].ReadFile? ::
          ops[k].offset + ops[k].size <= |FlatRun(old(Contents()), ops[..k])| && |seen[k]| == ops[k].size
      {
        var k := |seen|;
        assert |Contents()| == filesize by { FlatLength(cache, disk, filesize); }
        var answer: Bytes := Perform(ops[k], (n: nat) => generated(k, n), (n: nat) => newKey(k, n));
        assert ops[..k + 1][..k] == ops[..k];
        seen := seen + [answer];
      }
    }

    method Perform(op: Op, generated: nat -> Context, newKey: nat -> Key) returns (answer: Bytes)
      requires Valid() && !isDeleted && Legal(op)
      modifies this, node
      ensures Valid() && !isDeleted && Contents() == FlatStep(old(Contents()), op)
      ensures openers == old(openers) + OpenStep(op)
      ensures op.ReadFile? ==> answer == Slice(old(Contents()), op.offset, op.size) && |answer| == op.size
    {
      hide Covered, Listed, ByteAt, Kept;
      answer := [];
      match op {
        case OpenFile => Open();
        case WriteFile(offset, data) => var ok, n := Write(offset, data);
        case ReadFile(offset, size) =>
          var r := Read(offset, size, false);
          answer := r.value;
        case FlushFile => Store(generated, newKey);
        case ReleaseFile => Release(generated, newKey);
      }
    }
  }

  /** Decrypting the whole stored file gives the stored file. */
  method ReadBack(c: Cipher, node: Filenode, ghost disk: Bytes, text: Bytes, cuts: nat -> seq<nat>)
    returns (ok: bool, file: Bytes)
    requires Kept(c, node, disk, text) && |disk| < INT_LIMIT && AllReach(cuts, |disk|)
    ensures ok && file == disk
  {
    hide Sealed, TagsRight, OpensTo;
    assert |text| == |disk| by { SealedLength(c, node.contexts, disk, text); }
    var x := new Transfer(c, false, node.filesize, node.encryptedLength, node.contexts);
    SealedOpens(c, node.contexts, disk, text, node.encryptedLength, []);
    ok, file := DecryptFile(x, text, cuts);
    SealedOpens(c, node.contexts, disk, text, node.encryptedLength, file);
  }

  // ---------------------------------------------------------------- truncation

  /** The chunk that a file of `size` bytes ends in, were it longer. */
  function Cut(text: Bytes, size: nat): Bytes
    requires size <= |text|
  {
    text[size / CHUNK * CHUNK..size]
  }

  /**
   Whether a sealed file can still be read when it was cut to `size`.  It cannot when it was cut within its last
   chunk: the encrypted length stays, so that the tag of the shorter chunk is compared.
   */
  predicate Readable(c: Cipher, contexts: seq<Context>, text: Bytes, encryptedLength: nat, size: nat)
    requires size <= |text| && |contexts| == ChunkNumber(|text|) + 1
  {
    ChunkNumberIs(size);
    ChunkNumberIs(|text|);
    var n := size / CHUNK;
    || ChunkNumber(size) < ChunkNumber(|text|) || size % CHUNK == 0 || encryptedLength <= size
    || c.tag(contexts[n].key, Cut(text, size)) == c.tag(contexts[n].key, Piece(text, n))
  }

  lemma CutPiece(file: Bytes, size: nat, n: nat)
    requires size <= |file| && n * CHUNK < size
    ensures Piece(file[..size], n) == if n < size / CHUNK then Piece(file, n) else Cut(file, size)
  {
  }

  lemma CutTags(c: Cipher, contexts: seq<Context>, plain: Bytes, text: Bytes, encryptedLength: nat, size: nat,
                contexts': seq<Context>)
    requires Sealed(c, contexts, plain, text) && size <= |text| && |contexts| == ChunkNumber(|text|) + 1
    requires |contexts'| == ChunkNumber(size) + 1 && contexts' <= contexts
    ensures var same := ChunkNumber(size) == ChunkNumber(|text|);
      var length := if same then encryptedLength else Min(encryptedLength, size);
      TagsRight(c, contexts', text[..size], length) <==> Readable(c, contexts, text, encryptedLength, size)
  {
    hide Encrypt, Piece;
    ChunkNumberIs(size);
    ChunkNumberIs(|text|);
    var cut, last := text[..size], size / CHUNK;
    forall n: nat | n * CHUNK < size && n < last ensures TagRight(c, contexts', cut, n) {
      CutPiece(text, size, n);
      assert SealedPiece(c, contexts, plain, text, n);
    }
    if size % CHUNK != 0 {
      CutPiece(text, size, last);
      assert SealedPiece(c, contexts, plain, text, last);
      assert TagRight(c, contexts', cut, last) <==>
             c.tag(contexts[last].key, Cut(text, size)) == c.tag(contexts[last].key, Piece(text, last));
    }
  }

  lemma SliceOfSlice(file: Bytes, size: nat, lo: nat, cut: nat, hi: nat)
    requires lo <= cut <= size <= |file| && cut <= hi <= |file|
    ensures file[..size][lo..cut] == file[lo..hi][..cut - lo]
  {
  }

  /** A piece of a file that was cut is the front of the piece. */
  lemma PieceOfCut(file: Bytes, size: nat, n: nat)
    requires size <= |file| && n * CHUNK < size
    ensures var m := Min(size - n * CHUNK, CHUNK);
      m <= |Piece(file, n)| && Piece(file[..size], n) == Piece(file, n)[..m]
  {
    var lo, cut, hi := n * CHUNK, Min(n * CHUNK + CHUNK, size), Min(n * CHUNK + CHUNK, |file|);
    SliceOfSlice(file, size, lo, cut, hi);
  }

  /** A file that was cut opens to the first `size` bytes of what it was. */
  lemma CutOpens(c: Cipher, contexts: seq<Context>, plain: Bytes, text: Bytes, size: nat, contexts': seq<Context>,
                 file: Bytes)
    requires Inverse(c) && Sealed(c, contexts, plain, text) && size <= |text| && |contexts| == ChunkNumber(|text|) + 1
    requires |contexts'| == ChunkNumber(size) + 1 && contexts' <= contexts && OpensTo(c, contexts', text[..size], file)
    ensures file == plain[..size]
  {
    hide Encrypt, Decrypt, Piece;
    ChunkNumberIs(size);
    forall n: nat | n * CHUNK < size ensures Piece(file, n) == Piece(plain[..size], n) {
      assert SealedPiece(c, contexts, plain, text, n);
      var m := Min(size - n * CHUNK, CHUNK);
      PieceOfCut(text, size, n);
      PieceOfCut(plain, size, n);
      EncryptPrefix(c, contexts[n].key, Piece(plain, n), m);
      DecryptEncrypt(c, contexts[n].key, 0, Piece(plain, n)[..m]);
    }
    SamePieces(file, plain[..size]);
  }

  lemma EncryptPrefix(c: Cipher, k: Key, plain: Bytes, m: nat)
    requires m <= |plain|
    ensures |Encrypt(c, k, 0, plain)| == |plain| && Encrypt(c, k, 0, plain)[..m] == Encrypt(c, k, 0, plain[..m])
  {
  }

  /**
   Truncates a stored file, which touches only the enclave's record of it, and reads it.  The read gives the first
   `size` bytes, or fails; it fails exactly for the sizes that are not readable.
   */
  method TruncateThenRead(c: Cipher, node: Filenode, ghost plain: Bytes, text: Bytes, size: nat,
                          generated: nat -> Context,
                          cuts: nat -> seq<nat>)
    returns (ok: bool, file: Bytes)
    requires node.Valid() && node.filesize == |plain| && Sealed(c, node.contexts, plain, text) && Inverse(c)
    requires size <= |plain| < INT_LIMIT
    requires AllReach(cuts, size)
    modifies node
    ensures ok <==> Readable(c, old(node.contexts), text, old(node.encryptedLength), size)
    ensures ok ==> file == plain[..size]
  {
    hide Sealed, TagsRight, OpensTo, Readable;
    ghost var contexts, length := node.contexts, node.encryptedLength;
    assert |text| == |plain| by { SealedLength(c, contexts, plain, text); }
    ChunkNumberIs(size);
    ChunkNumberIs(|plain|);
    node.SetFilesize(size, generated);
    assert node.contexts <= contexts;
    var x := new Transfer(c, false, size, node.encryptedLength, node.contexts);
    CutTags(c, contexts, plain, text, length, size, node.contexts);
    ok, file := DecryptFile(x, text[..size], cuts);
    if ok { CutOpens(c, contexts, plain, text, size, node.contexts, file); }
  }

  /** A cipher that leaves the text alone and takes all of it as the tag. */
  const PLAIN_CIPHER := Cipher((k: Key, i: nat, b: byte) => b, (k: Key, i: nat, b: byte) => b, (k: Key, t: Bytes) => t)

  /** A file of two bytes that was encrypted and then cut to one cannot be read any more. */
  method TruncationIsLost(before: Context, key: Key, generated: nat -> Context) returns (ok: bool)
    ensures !ok
  {
    hide Sealed;
    var plain: Bytes := [1, 2];
    var x := new Transfer(PLAIN_CIPHER, true, 2, 0, [before]);
    assert Total([2]) == 2;
    assert AllReach(n => [2], 2) && AllReach(n => [1], 1);
    var text := EncryptFile(x, plain, n => key, n => [2]);
    var node := new Filenode(2, x.encryptedLength, x.contexts);
    ghost var contexts := x.contexts;
    assert |text| == 2 by { SealedLength(PLAIN_CIPHER, contexts, plain, text); }
    var file;
    ok, file := TruncateThenRead(PLAIN_CIPHER, node, plain, text, 1, generated, n => [1]);
    assert Cut(text, 1) != Piece(text, 0) by { assert |Cut(text, 1)| == 1 && |Piece(text, 0)| == 2; }
  }

  // ---------------------------------------------------------------- from a new file

  /** An empty file is stored as no bytes at all. */
  lemma NothingKept(c: Cipher, node: Filenode)
    requires Inverse(c) && node.Valid() && node.filesize == node.encryptedLength == 0
    ensures Kept(c, node, [], [])
  {
  }

  /**
   A new file, any interleaving of opens, writes, reads, flushes and releases on it, and then a decryption of what is
   stored: when nobody has the file open any more, that gives exactly what the writes made.
   */
  method WriteThenReadBack(c: Cipher, first: Context, ops: seq<Op>, generated: (nat, nat) -> Context,
                           newKey: (nat, nat) -> Key, cuts: nat -> seq<nat>)
    returns (done: nat, ok: bool, file: Bytes)
    requires Inverse(c) && forall n: nat :: Reaches(cuts(n), CHUNK)
    ensures done <= |ops|
    ensures done < |ops| ==> !LegalOn(|FlatRun([], ops[..done])|, Opened(ops[..done]), ops[done])
    ensures Opened(ops[..done]) == 0 ==> ok && file == FlatRun([], ops[..done])
  {
    hide FlatRun, Opened, Sealed, Flat, Covered, Listed, Inverse;
    var node := new Filenode(0, 0, [first]);
    NothingKept(c, node);
    var i := new Inode(c, node, [], []);
    var seen := i.Run(ops, generated, newKey);
    done, ok, file := |seen|, false, [];
    FlatLength(i.cache, i.disk, i.filesize);
    if i.openers == 0 {
      ok, file := ReadBack(c, node, i.disk, i.text, cuts);
    }
  }
}
