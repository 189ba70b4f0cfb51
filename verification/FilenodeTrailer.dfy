/**
 The file of a filenode: the encrypted file data, then the metadata, then a trailer of two 32-bit
 sizes that tells the reader where the metadata is. The sum of the sizes is a 32-bit sum.

 The operating system's file is a byte string with a position; its calls do not fail, but one call
 transfers at most `MOST` bytes, as on Linux.
 */
module FilenodeTrailer {
  import opened Prelude
  import opened LittleEndian

  const TRAILER: nat := 8
  const WRAP: nat := 0x1_0000_0000
  const MOST: nat := 0x7fff_f000

  function Zeros(n: nat): (z: Bytes)
    ensures |z| == n && forall k | 0 <= k < n :: z[k] == 0
  {
    seq(n, _ => 0)
  }

  /** The first `n` bytes, with zeros where there are none: the file cut or extended to `n`. */
  function Extended(data: Bytes, n: nat): (r: Bytes)
    ensures |r| == n
  {
    if n <= |data| then data[..n] else data + Zeros(n - |data|)
  }

  /** Writing at a position, behind a gap of zeros if it is past the end. */
  function Written(data: Bytes, pos: nat, bs: Bytes): Bytes {
    Extended(data, pos) + bs + if pos + |bs| <= |data| then data[pos + |bs|..] else []
  }

  /** A write changes the bytes it covers, fills a gap with zeros and leaves the rest. */
  lemma WrittenAt(data: Bytes, pos: nat, bs: Bytes, k: nat)
    requires k < |Written(data, pos, bs)|
    ensures |Written(data, pos, bs)| == Max(|data|, pos + |bs|)
    ensures Written(data, pos, bs)[k]
      == if pos <= k < pos + |bs| then bs[k - pos] else if k < |data| then data[k] else 0
  {
  }

  lemma ExtendedAt(data: Bytes, n: nat, k: nat)
    requires k < n
    ensures Extended(data, n)[k] == if k < |data| then data[k] else 0
  {
  }

  /** The four bytes from `k` on as a number, the lowest first. */
  function Word(data: Bytes, k: nat): nat
    requires k + 4 <= |data|
  {
    data[k] as nat + 0x100 * data[k + 1] as nat + 0x1_0000 * data[k + 2] as nat + 0x100_0000 * data[k + 3] as nat
  }

  lemma WordIs(data: Bytes, k: nat, four: Bytes)
    requires k + 4 <= |data| && four == data[k..k + 4]
    ensures Word(data, k) == FromLe(four)
  {
    hide FromLe;
    FromLeIs(four);
  }

  /** The low 32 bits as an `int`. */
  function ToInt(n: nat): int {
    var w := n % WRAP;
    if w < WRAP / 2 then w else w - WRAP
  }

  class FileHandle {
    var data: Bytes
    var pos: nat

    constructor (contents: Bytes)
      ensures data == contents && pos == 0
    {
      data, pos := contents, 0;
    }

    method Ftruncate(size: nat)
      modifies `data
      ensures data == Extended(old(data), size)
    {
      data := Extended(data, size);
    }

    method SeekSet(offset: nat)
      modifies `pos
      ensures pos == offset
    {
      pos := offset;
    }

    /** `lseek` to `back` bytes before the end. */
    method SeekEnd(back: nat) returns (ok: bool)
      modifies `pos
      ensures ok == (back <= |data|)
      ensures pos == if ok then |data| - back else old(pos)
    {
      ok := back <= |data|;
      if ok {
        pos := |data| - back;
      }
    }

    method Write(bs: Bytes) returns (n: nat)
      modifies this
      ensures n == Min(|bs|, MOST) && data == Written(old(data), old(pos), bs[..n]) && pos == old(pos) + n
    {
      n := Min(|bs|, MOST);
      data := Written(data, pos, bs[..n]);
      pos := pos + n;
    }

    /** As many bytes as there are, up to `n`. */
    method Read(n: nat) returns (bs: Bytes)
      modifies `pos
      ensures |bs| == Max(0, Min(Min(n, MOST), |data| - old(pos)))
      ensures |bs| > 0 ==> bs == data[old(pos)..old(pos) + |bs|]
      ensures pos == old(pos) + |bs|
    {
      bs := if pos < |data| then data[pos..Min(pos + Min(n, MOST), |data|)] else [];
      pos := pos + |bs|;
    }

    /**
     `__store_filenode`. The count of bytes written is compared with the size as an `int`, so that the store also
     succeeds for sizes that agree with `MOST` in their low 32 bits.
     */
    method Store(meta: Bytes, dataSize: nat) returns (ok: bool)
      modifies this
      ensures ok <==> |meta| <= MOST || |meta| % WRAP == MOST
      ensures ok ==> data == Stored(old(data), meta[..Min(|meta|, MOST)], dataSize)
      ensures !ok ==> data == Written(Extended(old(data), Total(|meta|, dataSize)), dataSize % WRAP, meta[..MOST])
      ensures ok ==> var n, m, d := |data|, Min(|meta|, 0x7fff_f000), dataSize % 0x1_0000_0000;
        && n == d + m + 8 && data[d..d + m] == meta[..m]
        && Word(data, n - 8) == m
        && Word(data, n - 4) == d
    {
      hide Le, Written, Extended, Stored, Word;
      StoredBytes(data, meta[..Min(|meta|, MOST)], dataSize);
      var metadataSize, filedataSize := |meta| % WRAP, dataSize % WRAP;
      var total := (metadataSize + filedataSize) % WRAP + TRAILER;
      Ftruncate(total);
      SeekSet(filedataSize);
      var nbytes := Write(meta);
      if nbytes != ToInt(|meta|) {
        return false;
      }
      var sizes := Le(metadataSize, 4) + Le(filedataSize, 4);
      assert sizes == Trailer(meta[..nbytes], dataSize) && sizes[..TRAILER] == sizes;
      nbytes := Write(sizes);
      ok := nbytes == TRAILER;
      Layout(old(data), meta[..Min(|meta|, MOST)], dataSize);
    }

    /** `__parse_filenode`. */
    method Parse() returns (meta: Option<Bytes>)
      modifies `pos
      ensures meta == Parsed(data)
      ensures |data| < 8 ==> meta.None?
      ensures |data| >= 8 ==>
        var n := |data|;
        var m := Word(data, n - 8);
        var d := Word(data, n - 4);
        if m == 0 then meta == Some([])
        else if m <= 0x7fff_f000 && d + m <= n then meta == Some(data[d..d + m])
        else meta.None?
    {
      hide FromLe, Parsed, Word;
      ParsedBytes(data);
      var ok := SeekEnd(TRAILER);
      if !ok {
        NoTrailer(data);
        return None;
      }
      var info := Read(TRAILER);
      var metadataSize, filedataSize := FromLe(info[..4]), FromLe(info[4..]);
      assert info == data[|data| - TRAILER..];
      TrailerSays(data, info);
      SeekSet(filedataSize);
      var buffer := Read(metadataSize);
      if |buffer| != ToInt(metadataSize) {
        return None;
      }
      meta := Some(buffer);
    }
  }

  lemma NoTrailer(data: Bytes)
    requires |data| < TRAILER
    ensures Parsed(data).None?
  {
  }

  lemma TrailerSays(data: Bytes, info: Bytes)
    requires |data| >= TRAILER && info == data[|data| - TRAILER..]
    ensures var m, d := FromLe(info[..4]), FromLe(info[4..]);
      && m < WRAP
      && Parsed(data) == if m > MOST || (d + m > |data| && m > 0) then None
                         else Some(if m == 0 then [] else data[d..d + m])
  {
    hide FromLe;
    FromLeBound(info[..4]);
    Widths();
  }

  function Trailer(meta: Bytes, dataSize: nat): (t: Bytes)
    ensures |t| == TRAILER
  {
    Le(|meta| % WRAP, 4) + Le(dataSize % WRAP, 4)
  }

  /** The size the file is cut to before the metadata is written. */
  function Total(size: nat, dataSize: nat): nat {
    (size % WRAP + dataSize % WRAP) % WRAP + TRAILER
  }

  /** The file after a store. */
  function Stored(was: Bytes, meta: Bytes, dataSize: nat): Bytes {
    Extended(Extended(was, Total(|meta|, dataSize)), dataSize % WRAP) + meta + Trailer(meta, dataSize)
  }

  /** The two writes leave nothing of the old file behind them. */
  lemma Layout(was: Bytes, meta: Bytes, dataSize: nat)
    requires |meta| <= MOST
    ensures var d, cut := dataSize % WRAP, Extended(was, Total(|meta|, dataSize));
      Written(Written(cut, d, meta), d + |meta|, Trailer(meta, dataSize)) == Stored(was, meta, dataSize)
  {
    hide Trailer;
    var d, cut := dataSize % WRAP, Extended(was, Total(|meta|, dataSize));
    var once, t := Written(cut, d, meta), Trailer(meta, dataSize);
    assert |once| <= d + |meta| + TRAILER;
    assert once[..d + |meta|] == Extended(cut, d) + meta;
    assert Extended(once, d + |meta|) == Extended(cut, d) + meta;
  }

  /** What a reader finds: the trailer's sizes say where the metadata is. */
  function Parsed(data: Bytes): Option<Bytes> {
    if |data| < TRAILER then None else
      var info := data[|data| - TRAILER..];
      var m, d := FromLe(info[..4]), FromLe(info[4..]);
      if m > MOST || (d + m > |data| && m > 0) then None else Some(if m == 0 then [] else data[d..d + m])
  }

  /** The layout in bytes: data, metadata, the size of the metadata and the size of the data, low byte first. */
  lemma StoredBytes(was: Bytes, meta: Bytes, dataSize: nat)
    requires |meta| <= 0x7fff_f000
    ensures var data, m, d := Stored(was, meta, dataSize), |meta|, dataSize % 0x1_0000_0000;
      var n := |data|;
      && n == d + m + 8 && data[d..d + m] == meta
      && Word(data, n - 8) == m
      && Word(data, n - 4) == d
  {
    hide Le, FromLe, Extended, Word;
    var d, data := dataSize % WRAP, Stored(was, meta, dataSize);
    Le32(|meta|);
    Le32(d);
    assert data[|data| - 8..] == Le(|meta|, 4) + Le(d, 4);
    WordIs(data, |data| - 8, Le(|meta|, 4));
    WordIs(data, |data| - 4, Le(d, 4));
  }

  /** Where a reader finds the sizes. */
  lemma ParsedBytes(data: Bytes)
    ensures |data| < 8 ==> Parsed(data).None?
    ensures |data| >= 8 ==>
      var n := |data|;
      var m := Word(data, n - 8);
      var d := Word(data, n - 4);
      if m == 0 then Parsed(data) == Some([])
      else if m <= 0x7fff_f000 && d + m <= n then Parsed(data) == Some(data[d..d + m])
      else Parsed(data).None?
  {
    hide FromLe, Word;
    if |data| >= 8 {
      var info := data[|data| - TRAILER..];
      WordIs(data, |data| - 8, info[..4]);
      WordIs(data, |data| - 4, info[4..]);
    }
  }

  /** The stored metadata is read back, whatever the file was and whether or not the sizes' sum wraps. */
  lemma RoundTrip(was: Bytes, meta: Bytes, dataSize: nat)
    requires |meta| <= MOST
    ensures Parsed(Stored(was, meta, dataSize)) == Some(meta)
  {
    hide Le, FromLe;
    var d, data := dataSize % WRAP, Stored(was, meta, dataSize);
    var front := Extended(Extended(was, Total(|meta|, dataSize)), d);
    var info := data[|data| - TRAILER..];
    assert info == Le(|meta|, 4) + Le(d, 4);
    assert info[..4] == Le(|meta|, 4) && info[4..] == Le(d, 4);
    Le32(|meta|);
    Le32(d);
    assert data[d..d + |meta|] == meta;
  }

  /**
   The file data in front is untouched exactly when the 32-bit sum of the sizes does not wrap, or when all it
   cuts off was zero anyway.
   */
  lemma PrefixKept(was: Bytes, meta: Bytes, dataSize: nat)
    requires |meta| <= MOST
    ensures var d := dataSize % WRAP;
      Stored(was, meta, dataSize)[..d] == Extended(was, d)
      <==> |meta| + d < WRAP || forall k | Total(|meta|, dataSize) <= k < d && k < |was| :: was[k] == 0
  {
    hide Trailer;
    var d, total := dataSize % WRAP, Total(|meta|, dataSize);
    var front := Extended(Extended(was, total), d);
    assert Stored(was, meta, dataSize)[..d] == front;
    if |meta| + d < WRAP {
      assert front == Extended(was, d);
    } else {
      assert total < d;
      forall k | 0 <= k < d ensures front[k] == if k < total && k < |was| then was[k] else 0 {
        assert front[k] == if k < total then Extended(was, total)[k] else 0;
      }
      forall k | 0 <= k < d ensures Extended(was, d)[k] == if k < |was| then was[k] else 0 {
      }
      if front == Extended(was, d) {
        forall k | total <= k < d && k < |was| ensures was[k] == 0 {
          assert front[k] == Extended(was, d)[k];
        }
      }
    }
  }

  /** With a sum that wraps, a file of ones loses data: one byte of metadata behind 2^32 - 1 bytes of data. */
  lemma WrapLosesData(was: Bytes)
    requires |was| == WRAP - 1 && was[9] == 1
    ensures Stored(was, [7], WRAP - 1)[..WRAP - 1] != was
  {
    PrefixKept(was, [7], WRAP - 1);
    assert Total(1, WRAP - 1) == 8;
    assert Extended(was, WRAP - 1) == was;
  }

  /** What a store that succeeds makes readable is the metadata it was given, exactly up to `MOST` bytes. */
  lemma TripExactly(was: Bytes, meta: Bytes, dataSize: nat)
    ensures Parsed(Stored(was, meta[..Min(|meta|, MOST)], dataSize)) == Some(meta) <==> |meta| <= MOST
  {
    RoundTrip(was, meta[..Min(|meta|, MOST)], dataSize);
    assert |meta| <= MOST ==> meta[..|meta|] == meta;
  }
}
