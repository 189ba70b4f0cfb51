/**
 The enclave's transfer context: file data is encrypted and decrypted chunk by chunk, each
 chunk in as many calls as the caller likes.

 The cipher is abstract: a stream cipher that works byte by byte on the position within a
 chunk, and a tag computed over the ciphertext of a chunk.
 */
module FileCrypto {
  import opened Prelude
  import opened Chunking

  type Key = nat

  datatype Cipher = Cipher(
    enc: (Key, nat, byte) -> byte,
    dec: (Key, nat, byte) -> byte,
    tag: (Key, Bytes) -> Bytes)

  ghost predicate Inverse(c: Cipher) {
    forall k, i, b :: c.dec(k, i, c.enc(k, i, b)) == b
  }

  function Encrypt(c: Cipher, k: Key, start: nat, plain: Bytes): Bytes {
    seq(|plain|, i requires 0 <= i < |plain| => c.enc(k, start + i, plain[i]))
  }

  function Decrypt(c: Cipher, k: Key, start: nat, text: Bytes): Bytes {
    seq(|text|, i requires 0 <= i < |text| => c.dec(k, start + i, text[i]))
  }

  /** Each byte goes through the cipher with its place. */
  lemma CipherAt(c: Cipher, k: Key, start: nat, bs: Bytes, i: nat)
    requires i < |bs|
    ensures |Encrypt(c, k, start, bs)| == |bs| && Encrypt(c, k, start, bs)[i] == c.enc(k, start + i, bs[i])
    ensures |Decrypt(c, k, start, bs)| == |bs| && Decrypt(c, k, start, bs)[i] == c.dec(k, start + i, bs[i])
  {
  }

  lemma DecryptEncrypt(c: Cipher, k: Key, start: nat, plain: Bytes)
    requires Inverse(c)
    ensures Decrypt(c, k, start, Encrypt(c, k, start, plain)) == plain
  {
  }

  /** The cipher does not notice how its input is cut. */
  lemma EncryptPieces(c: Cipher, k: Key, start: nat, a: Bytes, b: Bytes)
    ensures Encrypt(c, k, start, a + b) == Encrypt(c, k, start, a) + Encrypt(c, k, start + |a|, b)
  {
  }

  lemma DecryptPieces(c: Cipher, k: Key, start: nat, a: Bytes, b: Bytes)
    ensures Decrypt(c, k, start, a + b) == Decrypt(c, k, start, a) + Decrypt(c, k, start + |a|, b)
  {
  }

  /** The key and the tag of one chunk. */
  datatype Context = Context(key: Key, mac: Bytes)

  /** An open data buffer: its key and the ciphertext seen so far. */
  datatype DataBuf = DataBuf(key: Key, text: Bytes)

  datatype Status = Ok | Error | NoBuffer

  class Transfer {
    const cipher: Cipher
    const encrypting: bool
    var filesize: nat
    var encryptedLength: nat
    var contexts: seq<Context>
    var offset: nat
    var chunkLeft: nat
    var current: nat
    var buffer: Option<DataBuf>
    ghost var flushes: nat

    /** Where the current chunk starts and how long it is. */
    ghost function Base(): nat
      reads this
    {
      current * CHUNK
    }

    ghost function ChunkLength(): int
      reads this
    {
      Min(filesize - Base(), CHUNK)
    }

    ghost predicate Valid()
      reads this
    {
      && filesize < INT_LIMIT
      && (buffer.None? ==> chunkLeft == 0)
      && (buffer.Some? ==>
            && current < |contexts| && buffer.value.key == contexts[current].key
            && Base() <= offset && offset + chunkLeft == Base() + ChunkLength()
            && |buffer.value.text| == offset - Base())
    }

    constructor (cipher: Cipher, encrypting: bool, filesize: nat, encryptedLength: nat, contexts: seq<Context>)
      requires filesize < INT_LIMIT
      ensures Valid() && buffer == None && flushes == 0
      ensures this.cipher == cipher && this.encrypting == encrypting && this.filesize == filesize
      ensures this.encryptedLength == encryptedLength && this.contexts == contexts
    {
      this.cipher, this.encrypting := cipher, encrypting;
      this.filesize, this.encryptedLength, this.contexts := filesize, encryptedLength, contexts;
      offset, chunkLeft, current, buffer, flushes := 0, 0, 0, None, 0;
    }

    /** A seek goes to a chunk boundary of the file, and never out of an unfinished chunk. */
    predicate CanSeek(to: nat)
      reads this
    {
      chunkLeft == 0 && to % CHUNK == 0 && to <= filesize && to / CHUNK < |contexts|
    }

    /** Opens the chunk at `to`.  When encrypting, the chunk gets the new key `fresh`. */
    method Seek(to: nat, newKey: Key) returns (ok: bool)
      requires Valid()
      modifies `offset, `chunkLeft, `current, `buffer, `contexts
      ensures Valid() && (ok <==> old(CanSeek(to)))
      ensures !ok ==> unchanged(this)
      ensures ok ==> offset == to == Base() && chunkLeft == ChunkLength() && buffer.Some? && buffer.value.text == []
      ensures ok ==> |contexts| == |old(contexts)| && contexts[current].mac == old(contexts)[current].mac
      ensures ok ==> contexts[current].key == if encrypting then newKey else old(contexts)[current].key
      ensures forall n | 0 <= n < |contexts| && n != current :: contexts[n] == old(contexts)[n]
    {
      if chunkLeft != 0 { return false; }
      if to % CHUNK != 0 { return false; }
      if to > filesize { return false; }
      ChunkNumberIs(to);
      if ChunkNumber(to) >= |contexts| { return false; }
      current := ChunkNumber(to);
      if encrypting { contexts := contexts[current := contexts[current].(key := newKey)]; }
      buffer := Some(DataBuf(contexts[current].key, []));
      CMinIsMin(filesize - to, CHUNK);
      offset, chunkLeft := to, CMin(filesize - to, CHUNK);
      ok := true;
    }

    /** Whether the tag of the chunk that ends at `end` is compared on decryption. */
    predicate Checked(end: nat)
      reads this
    {
      end < encryptedLength
    }

    /** Closes the finished chunk: its tag is stored, or compared with the stored one. */
    method Flush() returns (ok: bool)
      requires Valid() && buffer.Some? && chunkLeft == 0
      modifies `buffer, `contexts, `encryptedLength, `flushes
      ensures Valid() && buffer == None && flushes == old(flushes) + 1
      ensures var tag := cipher.tag(old(buffer).value.key, old(buffer).value.text);
              if encrypting then
                && ok && contexts == old(contexts)[current := Context(old(contexts)[current].key, tag)]
                && encryptedLength == Max(old(encryptedLength), offset)
              else
                && contexts == old(contexts) && encryptedLength == old(encryptedLength)
                && (ok <==> (Checked(offset) ==> tag == contexts[current].mac))
    {
      var tag := cipher.tag(buffer.value.key, buffer.value.text);
      ok := true;
      if encrypting {
        contexts := contexts[current := contexts[current].(mac := tag)];
        if offset > encryptedLength { encryptedLength := offset; }
      } else if offset < encryptedLength {
        ok := tag == contexts[current].mac;
      }
      buffer := None;
      flushes := flushes + 1;
    }

    /** Processes as much of `input` as the current chunk takes, and flushes when it is done. */
    method Update(input: Bytes) returns (status: Status, output: Bytes)
      requires Valid() && |input| < INT_LIMIT
      modifies `offset, `chunkLeft, `buffer, `contexts, `encryptedLength, `flushes
      ensures Valid()
      ensures status == NoBuffer <==> old(buffer) == None
      ensures status == NoBuffer ==> unchanged(this) && output == []
      ensures status != NoBuffer ==>
                var b, n := old(buffer).value, Min(|input|, old(chunkLeft));
                var text := b.text + if encrypting then Encrypt(cipher, b.key, |b.text|, input[..n]) else input[..n];
                && output == (if encrypting then Encrypt else Decrypt)(cipher, b.key, |b.text|, input[..n])
                && offset == old(offset) + n && chunkLeft == old(chunkLeft) - n
                && if n < old(chunkLeft) then
                     && status == Ok && buffer == Some(DataBuf(b.key, text)) && flushes == old(flushes)
                     && contexts == old(contexts) && encryptedLength == old(encryptedLength)
                   else
                     && buffer == None && flushes == old(flushes) + 1
                     && if encrypting then
                          && status == Ok
                          && contexts == old(contexts)[current := Context(b.key, cipher.tag(b.key, text))]
                          && encryptedLength == Max(old(encryptedLength), offset)
                        else
                          && contexts == old(contexts) && encryptedLength == old(encryptedLength)
                          && (status == Ok <==> (Checked(offset) ==> cipher.tag(b.key, text) == contexts[current].mac))
    {
      if buffer.None? { return NoBuffer, []; }
      CMinIsMin(|input|, chunkLeft);
      var n := CMin(|input|, chunkLeft);
      var b := buffer.value;
      if encrypting {
        output := Encrypt(cipher, b.key, |b.text|, input[..n]);
        buffer := Some(DataBuf(b.key, b.text + output));
      } else {
        output := Decrypt(cipher, b.key, |b.text|, input[..n]);
        buffer := Some(DataBuf(b.key, b.text + input[..n]));
      }
      chunkLeft := chunkLeft - n;
      offset := offset + n;
      status := Ok;
      if chunkLeft == 0 {
        var ok := Flush();
        if !ok { status := Error; }
      }
    }

    ghost function Written(): Record
      reads this
    {
      Record(contexts, encryptedLength, flushes)
    }

    /** The first `done` bytes of the chunk `input` have been processed since the record was `was`. */
    ghost predicate Through(was: Record, input: Bytes, done: nat, ok: bool, output: Bytes)
      reads this
    {
      && Valid() && done <= |input| && current < |was.contexts|
      && var key := was.contexts[current].key;
      && output == Processed(cipher, encrypting, key, input[..done])
      && if buffer.Some? then
           && ok && chunkLeft == |input| - done && Written() == was && buffer.value.key == key
           && buffer.value.text == if encrypting then output else input[..done]
         else
           && done == |input| && Written() == Closing(was, output) && (ok <==> Accepts(was, input))
    }

    /** The record after the chunk was flushed: its tag is stored when encrypting. */
    ghost function Closing(was: Record, output: Bytes): Record
      requires current < |was.contexts|
      reads this
    {
      if encrypting then
        Record(was.contexts[current := Sealing(cipher, was.contexts[current].key, output)],
               Max(was.encryptedLength, offset), was.flushes + 1)
      else was.(flushes := was.flushes + 1)
    }

    /** Decryption accepts the chunk: its tag is right, or not compared. */
    ghost predicate Accepts(was: Record, input: Bytes)
      requires current < |was.contexts|
      reads this
    {
      encrypting || (Checked(offset) ==> was.contexts[current] == Sealing(cipher, was.contexts[current].key, input))
    }

    /** One update of at most `size` bytes, in the middle of a chunk. */
    method TransferPiece(ghost was: Record, input: Bytes, done: nat, size: nat, output: Bytes)
      returns (ok: bool, output': Bytes)
      requires Through(was, input, done, true, output) && buffer.Some?
      modifies `offset, `chunkLeft, `buffer, `contexts, `encryptedLength, `flushes
      ensures Through(was, input, done + Min(size, |input| - done), ok, output')
      ensures offset == old(offset) + Min(size, |input| - done)
      ensures buffer == None <==> size >= |input| - done
    {
      hide Processed;
      var n := Min(size, |input| - done);
      var piece := input[done..done + n];
      assert input[..done + n] == input[..done] + piece && piece[..n] == piece;
      ProcessedPieces(cipher, encrypting, contexts[current].key, input[..done], piece);
      var status, out := Update(piece);
      output' := output + out;
      ok := status == Ok;
      assert input[..|input|] == input;
    }

    /**
     One chunk, in updates of any sizes at all, zero included.  What comes out depends only on how many bytes they
     ask for together.  The tag is flushed exactly once, by the update that reaches the end of the chunk.
     */
    method TransferChunk(input: Bytes, cuts: seq<nat>) returns (ok: bool, output: Bytes)
      requires Valid() && buffer.Some? && buffer.value.text == [] && |input| == chunkLeft
      modifies `offset, `chunkLeft, `buffer, `contexts, `encryptedLength, `flushes
      ensures Through(old(Written()), input, Min(Total(cuts), |input|), ok, output)
      ensures offset == old(offset) + Min(Total(cuts), |input|)
      ensures buffer == None <==> Reaches(cuts, |input|)
    {
      ghost var was := Written();
      ok, output := true, [];
      var done: nat, i := 0, 0;
      assert Through(was, input, 0, true, []) by { ProcessedLength(cipher, encrypting, contexts[current].key, []); }
      hide Through;
      while i < |cuts| && buffer != None
        invariant i <= |cuts| && done == Min(Total(cuts[..i]), |input|) && offset == old(offset) + done
        invariant Through(was, input, done, ok, output) && (buffer.Some? ==> ok)
        invariant buffer == None <==> Reaches(cuts[..i], |input|)
      {
        assert cuts[..i + 1][..i] == cuts[..i];
        ok, output := TransferPiece(was, input, done, cuts[i], output);
        assert buffer.Some? ==> ok by { OpenIsOk(was, input, done + Min(cuts[i], |input| - done), ok, output); }
        done, i := done + Min(cuts[i], |input| - done), i + 1;
      }
      TotalGrows(cuts, i);
      assert i == |cuts| ==> cuts[..i] == cuts;
    }

    lemma OpenIsOk(was: Record, input: Bytes, done: nat, ok: bool, output: Bytes)
      requires Through(was, input, done, ok, output)
      ensures buffer.Some? ==> ok
    {
    }
  }

  /** What a transfer writes down about the file. */
  datatype Record = Record(contexts: seq<Context>, encryptedLength: nat, flushes: nat)

  function Total(cuts: seq<nat>): nat {
    if cuts == [] then 0 else Total(cuts[..|cuts| - 1]) + cuts[|cuts| - 1]
  }

  /** The updates reach the end of a chunk of `length` bytes.  An empty chunk needs one update too. */
  predicate Reaches(cuts: seq<nat>, length: nat) {
    cuts != [] && length <= Total(cuts)
  }

  lemma {:induction false} TotalGrows(cuts: seq<nat>, i: nat)
    requires i <= |cuts|
    ensures Total(cuts[..i]) <= Total(cuts)
  {
    if i == |cuts| {
      assert cuts[..i] == cuts;
    } else {
      var n := |cuts| - 1;
      TotalGrows(cuts[..n], i);
      assert cuts[..n][..i] == cuts[..i];
    }
  }

  function Processed(c: Cipher, encrypting: bool, k: Key, input: Bytes): Bytes {
    if encrypting then Encrypt(c, k, 0, input) else Decrypt(c, k, 0, input)
  }

  lemma ProcessedPieces(c: Cipher, encrypting: bool, k: Key, a: Bytes, b: Bytes)
    ensures Processed(c, encrypting, k, a + b) == Processed(c, encrypting, k, a)
              + if encrypting then Encrypt(c, k, |a|, b) else Decrypt(c, k, |a|, b)
    ensures |Processed(c, encrypting, k, a)| == |a|
  {
    EncryptPieces(c, k, 0, a, b);
    DecryptPieces(c, k, 0, a, b);
  }

  lemma ProcessedLength(c: Cipher, encrypting: bool, k: Key, input: Bytes)
    ensures |Processed(c, encrypting, k, input)| == |input|
  {
  }

  // ---------------------------------------------------------------- whole files

  function Piece(file: Bytes, n: nat): Bytes
    requires n * CHUNK <= |file|
  {
    file[n * CHUNK..Min(n * CHUNK + CHUNK, |file|)]
  }

  /** `text` is the ciphertext of `plain` under `contexts`, and the tags are right. */
  ghost predicate Sealed(c: Cipher, contexts: seq<Context>, plain: Bytes, text: Bytes) {
    && |text| == |plain|
    && forall n: nat | n * CHUNK < |plain| :: SealedPiece(c, contexts, plain, text, n)
  }

  ghost predicate SealedPiece(c: Cipher, contexts: seq<Context>, plain: Bytes, text: Bytes, n: nat)
    requires n * CHUNK < |plain| == |text|
  {
    && n < |contexts|
    && Piece(text, n) == Encrypt(c, contexts[n].key, 0, Piece(plain, n))
    && contexts[n] == Sealing(c, contexts[n].key, Piece(text, n))
  }

  /**
   Byte by byte: the cipher is given the key of the megabyte that a byte is in and its place there, and the tag is
   over the ciphertext of that megabyte, or of what there is of it.
   */
  lemma SealedByte(c: Cipher, contexts: seq<Context>, plain: Bytes, text: Bytes, o: nat)
    requires Sealed(c, contexts, plain, text) && o < |plain|
    ensures |text| == |plain| && o / 1048576 < |contexts|
    ensures var n := o / 1048576;
      && text[o] == c.enc(contexts[n].key, o % 1048576, plain[o])
      && contexts[n].mac == c.tag(contexts[n].key, text[n * 1048576..Min(n * 1048576 + 1048576, |text|)])
  {
    var n := o / 1048576;
    assert SealedPiece(c, contexts, plain, text, n);
    hide Encrypt;
    CipherAt(c, contexts[n].key, 0, Piece(plain, n), o - n * 1048576);
    assert Piece(text, n)[o - n * 1048576] == text[o] && Piece(plain, n)[o - n * 1048576] == plain[o];
  }

  /** And back: a byte of the opened file comes from the byte of the text, with the same key and place. */
  lemma OpenedByte(c: Cipher, contexts: seq<Context>, text: Bytes, plain: Bytes, o: nat)
    requires OpensTo(c, contexts, text, plain) && o < |text|
    ensures |text| == |plain| && o / 1048576 < |contexts|
    ensures plain[o] == c.dec(contexts[o / 1048576].key, o % 1048576, text[o])
  {
    var n := o / 1048576;
    assert n * CHUNK < |text| && n < |contexts| && Piece(plain, n) == PlainPiece(c, contexts, text, n);
    hide Decrypt;
    CipherAt(c, contexts[n].key, 0, Piece(text, n), o - n * 1048576);
    assert Piece(text, n)[o - n * 1048576] == text[o] && Piece(plain, n)[o - n * 1048576] == plain[o];
  }

  /** Every chunk of the file is worked on to its end. */
  ghost predicate AllReach(cuts: nat -> seq<nat>, length: nat) {
    forall n: nat | n * CHUNK < length :: Reaches(cuts(n), Min(length - n * CHUNK, CHUNK))
  }

  /** Encrypts chunk `n` from `piece`, with a new key. */
  method EncryptPiece(x: Transfer, piece: Bytes, n: nat, newKey: Key, cuts: seq<nat>) returns (out: Bytes)
    requires x.Valid() && x.encrypting && x.chunkLeft == 0 && n * CHUNK <= x.filesize && n < |x.contexts|
    requires |piece| == Min(x.filesize - n * CHUNK, CHUNK) && Reaches(cuts, |piece|)
    modifies x
    ensures x.Valid() && x.chunkLeft == 0 && x.filesize == old(x.filesize)
    ensures out == Encrypt(x.cipher, newKey, 0, piece) && |out| == |piece|
    ensures x.contexts == old(x.contexts)[n := Sealing(x.cipher, newKey, out)]
    ensures x.encryptedLength == Max(old(x.encryptedLength), n * CHUNK + |piece|)
  {
    hide Encrypt, Sealing;
    var ok := x.Seek(n * CHUNK, newKey);
    ok, out := x.TransferChunk(piece, cuts);
    assert piece[..|piece|] == piece;
    LengthKept(x.cipher, newKey, piece);
  }

  /** Encrypts a whole file, chunk by chunk, with a new key for each chunk. */
  method EncryptFile(x: Transfer, plain: Bytes, newKey: nat -> Key, cuts: nat -> seq<nat>) returns (text: Bytes)
    requires x.Valid() && x.encrypting && x.chunkLeft == 0 && x.filesize == |plain|
    requires |x.contexts| == ChunkNumber(|plain|) + 1 && AllReach(cuts, |plain|)
    modifies x
    ensures x.Valid() && x.chunkLeft == 0 && x.filesize == |plain|
    ensures Sealed(x.cipher, x.contexts, plain, text)
    ensures |x.contexts| == old(|x.contexts|) && x.encryptedLength == Max(old(x.encryptedLength), |plain|)
    ensures forall m: nat | m * CHUNK < |plain| :: m < |x.contexts| && x.contexts[m].key == newKey(m)
  {
    hide Encrypt;
    ChunkNumberIs(|plain|);
    text := [];
    var n := 0;
    while n * CHUNK < |plain|
      invariant x.Valid() && x.chunkLeft == 0 && x.filesize == |plain|
      invariant |x.contexts| == ChunkNumber(|plain|) + 1
      invariant |text| == Min(n * CHUNK, |plain|) && x.encryptedLength == Max(old(x.encryptedLength), |text|)
      invariant forall m: nat | m < n :: SealedSoFar(x.cipher, x.contexts, plain, text, m)
      invariant forall m: nat | m < n :: m < |x.contexts| && x.contexts[m].key == newKey(m)
    {
      ghost var before, contexts := text, x.contexts;
      var out := EncryptPiece(x, Piece(plain, n), n, newKey(n), cuts(n));
      text := text + out;
      forall m: nat | m < n ensures SealedSoFar(x.cipher, x.contexts, plain, text, m) {
        SealKept(x.cipher, contexts, x.contexts, plain, before, text, m);
      }
      assert text[n * CHUNK..|text|] == out;
      n := n + 1;
    }
    forall m: nat | m * CHUNK < |plain| ensures SealedPiece(x.cipher, x.contexts, plain, text, m) {
      assert SealedSoFar(x.cipher, x.contexts, plain, text, m);
    }
  }

  /** Piece `m` of the file is finished; the text may still be growing. */
  ghost predicate SealedSoFar(c: Cipher, contexts: seq<Context>, plain: Bytes, text: Bytes, m: nat) {
    var end := Min(m * CHUNK + CHUNK, |plain|);
    && m < |contexts| && m * CHUNK < |plain| && end <= |text|
    && text[m * CHUNK..end] == Encrypt(c, contexts[m].key, 0, Piece(plain, m))
    && contexts[m] == Sealing(c, contexts[m].key, text[m * CHUNK..end])
  }

  lemma SealKept(c: Cipher, contexts: seq<Context>, contexts': seq<Context>, plain: Bytes, text: Bytes, text': Bytes,
                 m: nat)
    requires SealedSoFar(c, contexts, plain, text, m) && text <= text'
    requires m < |contexts'| && contexts'[m] == contexts[m]
    ensures SealedSoFar(c, contexts', plain, text', m)
  {
    var end := Min(m * CHUNK + CHUNK, |plain|);
    assert text'[m * CHUNK..end] == text[m * CHUNK..end];
  }

  /** Every tag that decryption compares is right.  The last chunk is not among them. */
  ghost predicate TagsRight(c: Cipher, contexts: seq<Context>, text: Bytes, checkedLength: nat) {
    forall n: nat | n * CHUNK < |text| && Min(n * CHUNK + CHUNK, |text|) < checkedLength ::
      TagRight(c, contexts, text, n)
  }

  ghost predicate TagRight(c: Cipher, contexts: seq<Context>, text: Bytes, n: nat)
    requires n * CHUNK < |text|
  {
    n < |contexts| && contexts[n] == Sealing(c, contexts[n].key, Piece(text, n))
  }

  function PlainPiece(c: Cipher, contexts: seq<Context>, text: Bytes, n: nat): Bytes
    requires n * CHUNK < |text| && n < |contexts|
  {
    Decrypt(c, contexts[n].key, 0, Piece(text, n))
  }

  /** `plain` is what `text` decrypts to, piece by piece. */
  ghost predicate OpensTo(c: Cipher, contexts: seq<Context>, text: Bytes, plain: Bytes) {
    && |plain| == |text|
    && forall n: nat | n * CHUNK < |text| :: n < |contexts| && Piece(plain, n) == PlainPiece(c, contexts, text, n)
  }

  /** Decrypts piece `n`; it fails if and only if the tag is compared and wrong. */
  method DecryptPiece(x: Transfer, text: Bytes, n: nat, cuts: seq<nat>) returns (ok: bool, out: Bytes)
    requires x.Valid() && !x.encrypting && x.chunkLeft == 0 && x.filesize == |text|
    requires n * CHUNK < |text| && n < |x.contexts| && Reaches(cuts, |Piece(text, n)|)
    modifies x
    ensures x.Valid() && x.chunkLeft == 0 && x.filesize == |text|
    ensures x.contexts == old(x.contexts) && x.encryptedLength == old(x.encryptedLength)
    ensures out == PlainPiece(x.cipher, x.contexts, text, n) && |out| == |Piece(text, n)|
    ensures ok <==> (Min(n * CHUNK + CHUNK, |text|) < x.encryptedLength ==> TagRight(x.cipher, x.contexts, text, n))
  {
    hide Decrypt;
    ok := x.Seek(n * CHUNK, 0);
    assert x.contexts == old(x.contexts);
    ok, out := x.TransferChunk(Piece(text, n), cuts);
    assert Piece(text, n)[..|Piece(text, n)|] == Piece(text, n);
    LengthKept(x.cipher, x.contexts[n].key, Piece(text, n));
  }

  /** Decrypts a whole file; it fails if and only if a compared tag is wrong. */
  method DecryptFile(x: Transfer, text: Bytes, cuts: nat -> seq<nat>) returns (ok: bool, plain: Bytes)
    requires x.Valid() && !x.encrypting && x.chunkLeft == 0 && x.filesize == |text|
    requires |x.contexts| == ChunkNumber(|text|) + 1 && AllReach(cuts, |text|)
    modifies x
    ensures ok <==> TagsRight(x.cipher, x.contexts, text, x.encryptedLength)
    ensures x.contexts == old(x.contexts) && x.encryptedLength == old(x.encryptedLength)
    ensures ok ==> OpensTo(x.cipher, x.contexts, text, plain)
  {
    hide Decrypt, TagRight, Sealing, OpenedSoFar, PlainPiece, OpensTo;
    ChunkNumberIs(|text|);
    plain := [];
    var n := 0;
    while n * CHUNK < |text|
      invariant x.Valid() && x.chunkLeft == 0 && x.filesize == |text|
      invariant x.contexts == old(x.contexts) && x.encryptedLength == old(x.encryptedLength)
      invariant OpenedUpTo(x.cipher, x.contexts, text, plain, n)
      invariant forall m: nat | m < n && m * CHUNK < |text| && Min(m * CHUNK + CHUNK, |text|) < x.encryptedLength ::
        TagRight(x.cipher, x.contexts, text, m)
    {
      var out;
      ok, out := DecryptPiece(x, text, n, cuts(n));
      if !ok { return; }
      OpenedNext(x.cipher, x.contexts, text, plain, n, out);
      plain := plain + out;
      n := n + 1;
    }
    ok := true;
    OpenedAll(x.cipher, x.contexts, text, plain, n);
  }

  /** The first `n` pieces are decrypted. */
  ghost predicate OpenedUpTo(c: Cipher, contexts: seq<Context>, text: Bytes, plain: Bytes, n: nat) {
    && |plain| == Min(n * CHUNK, |text|)
    && forall m: nat | m < n :: m * CHUNK < |text| && OpenedSoFar(c, contexts, text, plain, m)
  }

  lemma OpenedNext(c: Cipher, contexts: seq<Context>, text: Bytes, plain: Bytes, n: nat, out: Bytes)
    requires OpenedUpTo(c, contexts, text, plain, n) && n * CHUNK < |text| && n < |contexts|
    requires out == PlainPiece(c, contexts, text, n) && |out| == |Piece(text, n)|
    ensures OpenedUpTo(c, contexts, text, plain + out, n + 1)
  {
    hide Decrypt;
    forall m: nat | m < n ensures OpenedSoFar(c, contexts, text, plain + out, m) {
      OpenKept(c, contexts, text, plain, plain + out, m);
    }
    assert (plain + out)[n * CHUNK..|plain + out|] == out;
  }

  lemma OpenedAll(c: Cipher, contexts: seq<Context>, text: Bytes, plain: Bytes, n: nat)
    requires OpenedUpTo(c, contexts, text, plain, n) && |text| <= n * CHUNK
    ensures OpensTo(c, contexts, text, plain)
  {
    hide Decrypt;
    forall m: nat | m * CHUNK < |text| ensures m < |contexts| && Piece(plain, m) == PlainPiece(c, contexts, text, m) {
      assert OpenedSoFar(c, contexts, text, plain, m);
    }
  }

  ghost predicate OpenedSoFar(c: Cipher, contexts: seq<Context>, text: Bytes, plain: Bytes, m: nat)
    requires m * CHUNK < |text|
  {
    var end := Min(m * CHUNK + CHUNK, |text|);
    m < |contexts| && end <= |plain| && plain[m * CHUNK..end] == PlainPiece(c, contexts, text, m)
  }

  lemma OpenKept(c: Cipher, contexts: seq<Context>, text: Bytes, plain: Bytes, plain': Bytes, m: nat)
    requires m * CHUNK < |text| && OpenedSoFar(c, contexts, text, plain, m) && plain <= plain'
    ensures OpenedSoFar(c, contexts, text, plain', m)
  {
    var end := Min(m * CHUNK + CHUNK, |text|);
    assert plain'[m * CHUNK..end] == plain[m * CHUNK..end];
  }

  /** Two files with equal pieces are equal. */
  lemma SamePieces(a: Bytes, b: Bytes)
    requires |a| == |b| && forall n: nat | n * CHUNK < |a| :: Piece(a, n) == Piece(b, n)
    ensures a == b
  {
    forall o: nat | o < |a| ensures a[o] == b[o] {
      var n := o / CHUNK;
      assert Piece(a, n)[o - n * CHUNK] == Piece(b, n)[o - n * CHUNK];
    }
  }

  /** Sealed files open to the plaintext, whatever the cuts. */
  lemma SealedOpens(c: Cipher, contexts: seq<Context>, plain: Bytes, text: Bytes, checkedLength: nat, result: Bytes)
    requires Inverse(c) && Sealed(c, contexts, plain, text)
    ensures TagsRight(c, contexts, text, checkedLength)
    ensures OpensTo(c, contexts, text, result) ==> result == plain
  {
    forall n: nat | n * CHUNK < |text| ensures n < |contexts| && TagRight(c, contexts, text, n)
                                              && PlainPiece(c, contexts, text, n) == Piece(plain, n)
    {
      assert SealedPiece(c, contexts, plain, text, n);
      DecryptEncrypt(c, contexts[n].key, 0, Piece(plain, n));
    }
    if OpensTo(c, contexts, text, result) { SamePieces(result, plain); }
  }

  /** Encrypting a file and decrypting it with two unrelated cuts gives the file back. */
  method RoundTrip(c: Cipher, plain: Bytes, before: seq<Context>, newKey: nat -> Key,
                   cuts: nat -> seq<nat>, cuts': nat -> seq<nat>)
    returns (ok: bool, result: Bytes)
    requires Inverse(c) && |plain| < INT_LIMIT && |before| == ChunkNumber(|plain|) + 1
    requires AllReach(cuts, |plain|) && AllReach(cuts', |plain|)
    ensures ok && result == plain
  {
    var x := new Transfer(c, true, |plain|, 0, before);
    var text := EncryptFile(x, plain, newKey, cuts);
    var y := new Transfer(c, false, |plain|, x.encryptedLength, x.contexts);
    SealedOpens(c, x.contexts, plain, text, x.encryptedLength, []);
    ok, result := DecryptFile(y, text, cuts');
    SealedOpens(c, x.contexts, plain, text, x.encryptedLength, result);
  }

  /** A file is accepted with any tag at all on its last chunk: that one is not compared. */
  method AnyLastTagAccepted(c: Cipher, plain: Bytes, before: seq<Context>, newKey: nat -> Key,
                            cuts: nat -> seq<nat>, cuts': nat -> seq<nat>, mac: Bytes)
    returns (text: Bytes, contexts: seq<Context>, ok: bool, result: Bytes)
    requires Inverse(c) && 0 < |plain| < INT_LIMIT && |before| == ChunkNumber(|plain|) + 1
    requires AllReach(cuts, |plain|) && AllReach(cuts', |plain|)
    ensures ok && result == plain
    ensures var last := (|plain| - 1) / CHUNK;
      && |text| == |plain| && last < |contexts|
      && (TagRight(c, contexts, text, last) <==> mac == c.tag(contexts[last].key, Piece(text, last)))
  {
    hide Decrypt, Encrypt, AllReach;
    var last := (|plain| - 1) / CHUNK;
    ChunkNumberIs(|plain|);
    var x := new Transfer(c, true, |plain|, 0, before);
    text := EncryptFile(x, plain, newKey, cuts);
    contexts := x.contexts[last := x.contexts[last].(mac := mac)];
    var y := new Transfer(c, false, |plain|, x.encryptedLength, contexts);
    SealedOpens(c, x.contexts, plain, text, x.encryptedLength, []);
    LastTagIgnored(c, x.contexts, text, last, mac);
    ok, result := DecryptFile(y, text, cuts');
    SealedOpens(c, x.contexts, plain, text, x.encryptedLength, result);
  }

  lemma LastTagIgnored(c: Cipher, contexts: seq<Context>, text: Bytes, last: nat, mac: Bytes)
    requires last * CHUNK < |text| <= last * CHUNK + CHUNK && last < |contexts|
    ensures var contexts' := contexts[last := contexts[last].(mac := mac)];
      && (TagsRight(c, contexts', text, |text|) <==> TagsRight(c, contexts, text, |text|))
      && forall plain :: OpensTo(c, contexts', text, plain) <==> OpensTo(c, contexts, text, plain)
  {
    hide Decrypt, Sealing;
    var contexts' := contexts[last := contexts[last].(mac := mac)];
    forall n: nat | n * CHUNK < |text| && Min(n * CHUNK + CHUNK, |text|) < |text|
      ensures TagRight(c, contexts', text, n) <==> TagRight(c, contexts, text, n) {}
    forall n: nat | n * CHUNK < |text| && n < |contexts|
      ensures PlainPiece(c, contexts', text, n) == PlainPiece(c, contexts, text, n) {}
  }

  lemma LengthKept(c: Cipher, k: Key, a: Bytes)
    ensures |Encrypt(c, k, 0, a)| == |a| == |Decrypt(c, k, 0, a)|
  {
  }

  /** The context of a chunk whose ciphertext is `text`. */
  function Sealing(c: Cipher, k: Key, text: Bytes): Context {
    Context(k, c.tag(k, text))
  }

  // ---------------------------------------------------------------- the record of a file

  /** What the enclave keeps about a file. */
  class Filenode {
    var filesize: nat
    var encryptedLength: nat
    var contexts: seq<Context>

    ghost predicate Valid()
      reads this
    {
      |contexts| == ChunkNumber(filesize) + 1
    }

    constructor (filesize: nat, encryptedLength: nat, contexts: seq<Context>)
      ensures this.filesize == filesize && this.encryptedLength == encryptedLength && this.contexts == contexts
    {
      this.filesize, this.encryptedLength, this.contexts := filesize, encryptedLength, contexts;
    }

    /** The encrypted length after a change of size.  It is only cut back when the number of chunks changes. */
    function LengthAfter(size: nat): nat
      reads this
    {
      if ChunkNumber(size) == ChunkNumber(filesize) then encryptedLength else Min(encryptedLength, size)
    }

    /** Sets the size.  Chunk records go from the end of the list or are added there. */
    method SetFilesize(size: nat, generated: nat -> Context)
      requires Valid()
      modifies this
      ensures Valid() && filesize == size && encryptedLength == old(LengthAfter(size))
      ensures forall n | 0 <= n < Min(|contexts|, |old(contexts)|) :: contexts[n] == old(contexts)[n]
    {
      if filesize == size { return; }
      var count := ChunkNumber(size) + 1;
      if count == |contexts| {
        filesize := size;
        return;
      }
      if encryptedLength > size { encryptedLength := size; }
      filesize := size;
      while |contexts| > count
        invariant count <= |contexts| || contexts == old(contexts)
        invariant contexts <= old(contexts) && filesize == size && encryptedLength == old(LengthAfter(size))
      {
        contexts := contexts[..|contexts| - 1];
      }
      while |contexts| < count
        invariant |contexts| <= count && filesize == size && encryptedLength == old(LengthAfter(size))
        invariant forall n | 0 <= n < Min(|contexts|, |old(contexts)|) :: contexts[n] == old(contexts)[n]
      {
        contexts := contexts + [generated(|contexts|)];
      }
    }
  }

  /** The enclave's record and the stored ciphertext are right for the stored plaintext `disk`. */
  ghost predicate Kept(c: Cipher, node: Filenode, disk: Bytes, text: Bytes)
    reads node
  {
    && node.Valid() && node.filesize == node.encryptedLength == |disk| && Sealed(c, node.contexts, disk, text)
    && Inverse(c)
  }
}
