/**
 The allocator's arena seen as a sequence of blocks.

 A block is a header, a payload and a footer.  This module says how `malloc` and
 `free` rewrite the sequence, and proves what every run of them keeps: the blocks
 tile the arena, no byte of it is lost, live payloads never overlap, and free
 blocks are fully merged except for the one neighbour pair that `free` skips.
 */
module HeapBlocks {
  import opened Prelude

  const HEADER_SIZE: nat := 24
  const FOOTER_SIZE: nat := 8
  const OVERHEAD: nat := HEADER_SIZE + FOOTER_SIZE
  const MIN_ALLOC_SIZE: nat := 4
  const SIZE_LIMIT: nat := 0x1_0000_0000

  datatype Block = Block(addr: nat, size: nat, hole: bool) {
    function End(): nat { addr + OVERHEAD + size }
    function Payload(): nat { addr + HEADER_SIZE }
    function Foot(): nat { addr + HEADER_SIZE + size }
  }

  /** The blocks lie end to end from `start` to `end`. */
  ghost predicate Tiles(blocks: seq<Block>, start: nat, end: nat) {
    && |blocks| > 0
    && blocks[0].addr == start
    && (forall i, j | 0 <= i && j == i + 1 && j < |blocks| :: blocks[j].addr == blocks[i].End())
    && blocks[|blocks| - 1].End() == end
  }

  lemma {:induction false} Ordered(blocks: seq<Block>, start: nat, end: nat, i: nat, j: nat)
    requires Tiles(blocks, start, end)
    requires i < j < |blocks|
    ensures blocks[i].End() <= blocks[j].addr
    decreases j
  {
    if i >= j - 1 {
    } else {
      Ordered(blocks, start, end, i, j - 1);
    }
    assert blocks[j].addr == blocks[j - 1].End();
  }

  /** Blocks are apart from each other and inside the arena. */
  ghost predicate Apart(blocks: seq<Block>, start: nat, end: nat) {
    && (forall i, j | 0 <= i < j < |blocks| :: blocks[i].End() <= blocks[j].addr)
    && (forall i | 0 <= i < |blocks| :: start <= blocks[i].addr && blocks[i].End() <= end)
  }

  lemma TilesAreApart(blocks: seq<Block>, start: nat, end: nat)
    requires Tiles(blocks, start, end)
    ensures Apart(blocks, start, end)
  {
    forall i, j | 0 <= i < j < |blocks| ensures blocks[i].End() <= blocks[j].addr {
      Ordered(blocks, start, end, i, j);
    }
    forall i | 0 <= i < |blocks| ensures start <= blocks[i].addr && blocks[i].End() <= end {
      InArena(blocks, start, end, i);
    }
  }

  lemma InArena(blocks: seq<Block>, start: nat, end: nat, i: nat)
    requires Tiles(blocks, start, end) && i < |blocks|
    ensures start <= blocks[i].addr && blocks[i].End() <= end
    ensures i == 0 <==> blocks[i].addr == start
  {
    if 0 < i { Ordered(blocks, start, end, 0, i); }
    if i < |blocks| - 1 { Ordered(blocks, start, end, i, |blocks| - 1); }
  }

  /** Live payloads lie inside the arena and no two of them share a byte. */
  ghost predicate PayloadsDisjoint(blocks: seq<Block>, start: nat, end: nat) {
    && (forall i | 0 <= i < |blocks| && !blocks[i].hole ::
          start < blocks[i].Payload() && blocks[i].Payload() + blocks[i].size < end)
    && (forall i, j | 0 <= i < j < |blocks| && !blocks[i].hole && !blocks[j].hole ::
          blocks[i].Payload() + blocks[i].size < blocks[j].Payload())
  }

  /** Payload bytes plus the fixed cost of each block. */
  function Footprint(blocks: seq<Block>): nat {
    if blocks == [] then 0 else Footprint(blocks[..|blocks| - 1]) + OVERHEAD + blocks[|blocks| - 1].size
  }

  lemma {:induction false} TilesConserve(blocks: seq<Block>, start: nat, end: nat)
    requires Tiles(blocks, start, end)
    ensures start + Footprint(blocks) == end
    decreases |blocks|
  {
    var n := |blocks| - 1;
    if n == 0 {
    } else {
      TilesConserve(blocks[..n], start, blocks[n].addr);
    }
  }

  /** No two free blocks are neighbours. */
  ghost predicate Coalesced(blocks: seq<Block>) {
    forall i, j | 0 <= i && j == i + 1 && j < |blocks| :: !(blocks[i].hole && blocks[j].hole)
  }

  /** A free block of minimal sufficient size over the whole heap. */
  ghost predicate BestFit(blocks: seq<Block>, i: nat, size: nat) {
    && i < |blocks| && blocks[i].hole && size <= blocks[i].size
    && forall b | b in blocks && b.hole && size <= b.size :: blocks[i].size <= b.size
  }

  /** `blocks` with the blocks `lo` to `hi` replaced. */
  function Replace(blocks: seq<Block>, lo: nat, hi: nat, with: seq<Block>): seq<Block>
    requires lo <= hi < |blocks|
  {
    blocks[..lo] + with + blocks[hi + 1..]
  }

  predicate Splits(b: Block, size: nat) {
    b.size >= size && b.size - size > OVERHEAD + MIN_ALLOC_SIZE
  }

  /** What hole `b` turns into when it serves a request of `size` bytes. */
  function Parts(b: Block, size: nat): seq<Block>
    requires size <= b.size
  {
    if Splits(b, size) then
      [Block(b.addr, size, false), Block(b.addr + OVERHEAD + size, b.size - size - OVERHEAD, true)]
    else
      [b.(hole := false)]
  }

  /** The blocks after hole `i` has been given out for a request of `size` bytes. */
  function AllocAt(blocks: seq<Block>, i: nat, size: nat): seq<Block>
    requires i < |blocks| && size <= blocks[i].size
  {
    Replace(blocks, i, i, Parts(blocks[i], size))
  }

  /** The hole is cut exactly when more than 36 bytes would be left; then the request gets what it asked for. */
  lemma AllocIs(blocks: seq<Block>, i: nat, size: nat)
    requires i < |blocks| && size <= blocks[i].size
    ensures var b, after := blocks[i], AllocAt(blocks, i, size);
      if b.size <= size + 36 then after == blocks[i := Block(b.addr, b.size, false)]
      else after == blocks[..i] + [Block(b.addr, size, false), Block(b.addr + size + 32, b.size - size - 32, true)]
                    + blocks[i + 1..]
  {
  }

  function MergesLeft(blocks: seq<Block>, i: nat): bool
    requires i < |blocks|
  {
    i > 0 && blocks[i - 1].hole
  }

  /** The first block of the arena never looks at its right neighbour. */
  function MergesRight(blocks: seq<Block>, i: nat): bool
    requires i < |blocks|
  {
    0 < i < |blocks| - 1 && blocks[i + 1].hole
  }

  /** The blocks after block `i` has been freed: one hole from `lo` to `hi`. */
  function FreeAt(blocks: seq<Block>, i: nat): seq<Block>
    requires i < |blocks|
  {
    var lo := if MergesLeft(blocks, i) then i - 1 else i;
    var hi := if MergesRight(blocks, i) then i + 1 else i;
    Fuse(blocks, lo, hi)
  }

  /** Blocks `lo` to `hi` replaced by one hole that covers them. */
  function Fuse(blocks: seq<Block>, lo: nat, hi: nat): seq<Block>
    requires lo <= hi < |blocks|
  {
    Replace(blocks, lo, hi, [Block(blocks[lo].addr, Span(blocks, lo, hi), true)])
  }

  function Span(blocks: seq<Block>, lo: nat, hi: nat): nat
    requires lo <= hi < |blocks|
    decreases hi
  {
    if lo == hi then blocks[lo].size else Span(blocks, lo, hi - 1) + OVERHEAD + blocks[hi].size
  }

  /** Freed bytes join the holes on both sides, with 32 bytes for every joint; the first block joins nothing. */
  lemma FreeIs(blocks: seq<Block>, i: nat)
    requires i < |blocks|
    ensures var b, after := blocks[i], FreeAt(blocks, i);
      var left, right := i > 0 && blocks[i - 1].hole, 0 < i && i + 1 < |blocks| && blocks[i + 1].hole;
      if left && right then
        var a, c := blocks[i - 1], blocks[i + 1];
        after == blocks[..i - 1] + [Block(a.addr, a.size + b.size + c.size + 64, true)] + blocks[i + 2..]
      else if left then
        var a := blocks[i - 1];
        after == blocks[..i - 1] + [Block(a.addr, a.size + b.size + 32, true)] + blocks[i + 1..]
      else if right then
        after == blocks[..i] + [Block(b.addr, b.size + blocks[i + 1].size + 32, true)] + blocks[i + 2..]
      else
        after == blocks[i := Block(b.addr, b.size, true)]
  {
    if MergesLeft(blocks, i) {
      assert Span(blocks, i - 1, i) == blocks[i - 1].size + OVERHEAD + blocks[i].size;
    }
    if MergesRight(blocks, i) {
      assert Span(blocks, i, i) == blocks[i].size;
      assert Span(blocks, i, i + 1) == Span(blocks, i, i) + OVERHEAD + blocks[i + 1].size;
    }
  }

  lemma {:induction false} SpanReaches(blocks: seq<Block>, start: nat, end: nat, lo: nat, hi: nat)
    requires Tiles(blocks, start, end) && lo <= hi < |blocks|
    ensures blocks[lo].addr + OVERHEAD + Span(blocks, lo, hi) == blocks[hi].End()
    decreases hi
  {
    if lo >= hi {
    } else {
      SpanReaches(blocks, start, end, lo, hi - 1);
      assert blocks[hi].addr == blocks[hi - 1].End();
    }
  }

  /** Where element `k` of a replacement comes from. */
  lemma ReplaceAt(blocks: seq<Block>, lo: nat, hi: nat, with: seq<Block>, k: nat) returns (n: nat)
    requires lo <= hi < |blocks| && k < |Replace(blocks, lo, hi, with)|
    ensures lo <= k < lo + |with| ==> Replace(blocks, lo, hi, with)[k] == with[k - lo]
    ensures k < lo ==> n == k
    ensures lo + |with| <= k ==> n == k - lo - |with| + hi + 1
    ensures !(lo <= k < lo + |with|) ==> n < |blocks| && Replace(blocks, lo, hi, with)[k] == blocks[n]
  {
    n := if k < lo then k else if k < lo + |with| then 0 else k - lo - |with| + hi + 1;
  }

  lemma ReplaceTiles(blocks: seq<Block>, start: nat, end: nat, lo: nat, hi: nat, with: seq<Block>)
    requires Tiles(blocks, start, end) && lo <= hi < |blocks|
    requires Tiles(with, blocks[lo].addr, blocks[hi].End())
    ensures Tiles(Replace(blocks, lo, hi, with), start, end)
  {
    var r := Replace(blocks, lo, hi, with);
    forall k, j | 0 <= k && j == k + 1 && j < |r| ensures r[j].addr == r[k].End() {
      var m := ReplaceAt(blocks, lo, hi, with, k);
      var n := ReplaceAt(blocks, lo, hi, with, j);
      if j == lo {
        assert blocks[lo].addr == blocks[m].End();
      } else if k == lo + |with| - 1 {
        assert blocks[n].addr == blocks[hi].End();
      }
    }
  }

  lemma AllocTiles(blocks: seq<Block>, start: nat, end: nat, i: nat, size: nat)
    requires Tiles(blocks, start, end) && i < |blocks| && size <= blocks[i].size
    ensures Tiles(AllocAt(blocks, i, size), start, end)
  {
    ReplaceTiles(blocks, start, end, i, i, Parts(blocks[i], size));
  }

  lemma FuseTiles(blocks: seq<Block>, start: nat, end: nat, lo: nat, hi: nat)
    requires Tiles(blocks, start, end) && lo <= hi < |blocks|
    ensures Tiles(Fuse(blocks, lo, hi), start, end)
  {
    SpanReaches(blocks, start, end, lo, hi);
    ReplaceTiles(blocks, start, end, lo, hi, [Block(blocks[lo].addr, Span(blocks, lo, hi), true)]);
  }

  lemma ReplaceCoalesced(blocks: seq<Block>, lo: nat, hi: nat, with: seq<Block>)
    requires Coalesced(blocks) && lo <= hi < |blocks| && Coalesced(with) && |with| > 0
    requires lo > 0 ==> !(blocks[lo - 1].hole && with[0].hole)
    requires hi + 1 < |blocks| ==> !(with[|with| - 1].hole && blocks[hi + 1].hole)
    ensures Coalesced(Replace(blocks, lo, hi, with))
  {
    var r := Replace(blocks, lo, hi, with);
    forall k, j | 0 <= k && j == k + 1 && j < |r| ensures !(r[k].hole && r[j].hole) {
      var m := ReplaceAt(blocks, lo, hi, with, k);
      var n := ReplaceAt(blocks, lo, hi, with, j);
    }
  }

  /** Splitting and handing out a hole never brings two holes together. */
  lemma AllocCoalesced(blocks: seq<Block>, i: nat, size: nat)
    requires Coalesced(blocks) && i < |blocks| && blocks[i].hole && size <= blocks[i].size
    ensures Coalesced(AllocAt(blocks, i, size))
  {
    assert i + 1 < |blocks| ==> !blocks[i + 1].hole;
    ReplaceCoalesced(blocks, i, i, Parts(blocks[i], size));
  }

  /**
   Freeing keeps the holes fully merged in every case but one: the freed block is the
   first of the arena and the block to its right is a hole.
   */
  lemma FreeCoalescedIff(blocks: seq<Block>, i: nat)
    requires Coalesced(blocks) && i < |blocks| && !blocks[i].hole
    ensures Coalesced(FreeAt(blocks, i)) <==> !(i == 0 && |blocks| > 1 && blocks[1].hole)
  {
    if i == 0 && |blocks| > 1 && blocks[1].hole {
      var r := FreeAt(blocks, i);
      assert r[0].hole && r[1].hole;
    } else {
      var lo := if MergesLeft(blocks, i) then i - 1 else i;
      var hi := if MergesRight(blocks, i) then i + 1 else i;
      assert lo > 0 ==> !blocks[lo - 1].hole;
      assert hi + 1 < |blocks| ==> !blocks[hi + 1].hole;
      ReplaceCoalesced(blocks, lo, hi, [Block(blocks[lo].addr, Span(blocks, lo, hi), true)]);
    }
  }

  lemma ReplaceMembers(blocks: seq<Block>, lo: nat, hi: nat, with: seq<Block>, b: Block)
    requires lo <= hi < |blocks|
    ensures b in Replace(blocks, lo, hi, with) <==> b in blocks[..lo] || b in with || b in blocks[hi + 1..]
    ensures b in blocks <==> b in blocks[..lo] || b in blocks[lo..hi + 1] || b in blocks[hi + 1..]
  {
    assert blocks == blocks[..lo] + blocks[lo..hi + 1] + blocks[hi + 1..];
  }

  /** What the caller still owns: freeing takes away block `i` and nothing else. */
  lemma FreeKeepsOtherLive(blocks: seq<Block>, start: nat, end: nat, i: nat, b: Block)
    requires Tiles(blocks, start, end) && i < |blocks| && !blocks[i].hole && !b.hole
    ensures b in FreeAt(blocks, i) <==> b in blocks && b != blocks[i]
  {
    var lo := if MergesLeft(blocks, i) then i - 1 else i;
    var hi := if MergesRight(blocks, i) then i + 1 else i;
    ReplaceMembers(blocks, lo, hi, [Block(blocks[lo].addr, Span(blocks, lo, hi), true)], b);
    assert b in blocks[lo..hi + 1] ==> b == blocks[i];
    forall k | 0 <= k < |blocks| && k != i ensures blocks[k] != blocks[i] {
      Ordered(blocks, start, end, if k < i then k else i, if k < i then i else k);
    }
    assert blocks[i] in blocks[lo..hi + 1] by { assert blocks[lo..hi + 1][i - lo] == blocks[i]; }
  }

  /** Handing out hole `i` adds one live block, placed where the hole was, and keeps the others. */
  lemma AllocKeepsLive(blocks: seq<Block>, i: nat, size: nat, b: Block)
    requires i < |blocks| && blocks[i].hole && size <= blocks[i].size && !b.hole
    ensures b in AllocAt(blocks, i, size) <==>
            b in blocks || b == Block(blocks[i].addr, if Splits(blocks[i], size) then size else blocks[i].size, false)
  {
    ReplaceMembers(blocks, i, i, Parts(blocks[i], size), b);
    assert blocks[i..i + 1] == [blocks[i]];
  }
}
