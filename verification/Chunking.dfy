/** Files are cut into chunks of one megabyte, in the front end and in the enclave alike. */
module Chunking {
  import opened Prelude

  const CHUNK: nat := 0x10_0000

  /** The limit up to which the C `min`, which works on `int`, computes a minimum. */
  const INT_LIMIT: nat := 0x8000_0000

  function ToInt(x: nat): int {
    var w := x % 0x1_0000_0000;
    if w < INT_LIMIT then w else w - 0x1_0000_0000
  }

  function CMin(a: nat, b: nat): int {
    Min(ToInt(a), ToInt(b))
  }

  lemma CMinIsMin(a: nat, b: nat)
    requires a < INT_LIMIT && b < INT_LIMIT
    ensures CMin(a, b) == Min(a, b)
  {
  }

  /** Beyond the range of `int` the larger value can come out as the minimum. */
  lemma CMinIs(a: nat, b: nat)
    requires a < 0x1_0000_0000 && b < 0x8000_0000
    ensures CMin(a, b) == if a < 0x8000_0000 then Min(a, b) else a - 0x1_0000_0000
  {
  }

  function ChunkNumber(offset: nat): nat {
    if offset < CHUNK then 0 else 1 + (offset - CHUNK) / CHUNK
  }

  /** The chunk number is the quotient, so the base is the largest chunk boundary not above the offset. */
  lemma ChunkNumberIs(offset: nat)
    ensures ChunkNumber(offset) == offset / CHUNK == offset / 1048576
    ensures ChunkNumber(offset) * CHUNK <= offset < (ChunkNumber(offset) + 1) * CHUNK
  {
  }
}
