/**
 The heap allocator: headers, footers and bins rewritten in place.

 Memory is modelled by the words the allocator itself reads and writes: `header` maps
 the address of a block header to its contents and `foot` maps the address of a footer
 to the header it points to.  Stale words stay in both maps, as they do in memory.
 */
module HeapAllocator {
  import opened Prelude
  import opened HeapBlocks
  import opened HeapBins
  import opened Links

  type Feet = map<nat, nat>

  /** The words of block `b`: its header, and a footer that points back to it. */
  ghost predicate Stored(header: Headers, foot: Feet, b: Block) {
    && b.addr in header && header[b.addr] == Header(b.hole, b.size)
    && b.Foot() in foot && foot[b.Foot()] == b.addr
  }

  ghost predicate InMemory(header: Headers, foot: Feet, blocks: seq<Block>) {
    forall i | 0 <= i < |blocks| :: Stored(header, foot, blocks[i])
  }

  ghost predicate HasHole(blocks: seq<Block>, a: nat, size: nat) {
    exists i :: 0 <= i < |blocks| && blocks[i] == Block(a, size, true)
  }

  ghost predicate Listed(holes: map<nat, nat>, b: Block) {
    b.hole ==> b.addr in holes && holes[b.addr] == b.size
  }

  /** `holes` lists the holes among `blocks` and their sizes. */
  ghost predicate HolesMatch(holes: map<nat, nat>, blocks: seq<Block>) {
    && (forall i | 0 <= i < |blocks| :: Listed(holes, blocks[i]))
    && (forall a | a in holes :: HasHole(blocks, a, holes[a]))
  }

  /** `header'` and `foot'` differ from the old words only inside `[lo, hi)`. */
  ghost predicate OnlyWithin(header: Headers, foot: Feet, header': Headers, foot': Feet, lo: nat, hi: nat) {
    && (forall a | a in header && !(lo <= a < hi) :: a in header' && header'[a] == header[a])
    && (forall a | a in foot && !(lo <= a < hi) :: a in foot' && foot'[a] == foot[a])
  }

  lemma StoredOutside(header: Headers, foot: Feet, header': Headers, foot': Feet, lo: nat, hi: nat, b: Block)
    requires Stored(header, foot, b) && OnlyWithin(header, foot, header', foot', lo, hi)
    requires b.End() <= lo || hi <= b.addr
    ensures Stored(header', foot', b)
  {
  }

  /** A block outside `lo..hi` lies entirely before or behind those blocks. */
  lemma OutsideRange(blocks: seq<Block>, start: nat, end: nat, lo: nat, hi: nat, n: nat)
    requires Tiles(blocks, start, end) && lo <= hi < |blocks| && n < |blocks| && !(lo <= n <= hi)
    ensures blocks[n].End() <= blocks[lo].addr || blocks[hi].End() <= blocks[n].addr
  {
    if n < lo { Ordered(blocks, start, end, n, lo); } else { Ordered(blocks, start, end, hi, n); }
  }

  /** A block among `lo..hi` lies within their bytes. */
  lemma InsideRange(blocks: seq<Block>, start: nat, end: nat, lo: nat, hi: nat, n: nat)
    requires Tiles(blocks, start, end) && lo <= n <= hi < |blocks|
    ensures blocks[lo].addr <= blocks[n].addr < blocks[hi].End()
  {
    if lo < n { Ordered(blocks, start, end, lo, n); }
    if n < hi { Ordered(blocks, start, end, n, hi); }
  }

  /** Replacing blocks `lo..hi` keeps memory in step if only their bytes were written. */
  lemma ReplaceInMemory(header: Headers, foot: Feet, header': Headers, foot': Feet,
                        blocks: seq<Block>, start: nat, end: nat, lo: nat, hi: nat, with: seq<Block>)
    requires Tiles(blocks, start, end) && lo <= hi < |blocks|
    requires InMemory(header, foot, blocks) && InMemory(header', foot', with)
    requires OnlyWithin(header, foot, header', foot', blocks[lo].addr, blocks[hi].End())
    ensures InMemory(header', foot', Replace(blocks, lo, hi, with))
  {
    var r := Replace(blocks, lo, hi, with);
    forall k | 0 <= k < |r| ensures Stored(header', foot', r[k]) {
      var n := ReplaceAt(blocks, lo, hi, with, k);
      if !(lo <= k < lo + |with|) {
        OutsideRange(blocks, start, end, lo, hi, n);
        StoredOutside(header, foot, header', foot', blocks[lo].addr, blocks[hi].End(), blocks[n]);
      }
    }
  }

  /** `holes'` lists the same holes as `holes` outside `[lo, hi)`. */
  ghost predicate SameOutside(holes: map<nat, nat>, holes': map<nat, nat>, lo: nat, hi: nat) {
    forall a | !(lo <= a < hi) ::
      && (a in holes <==> a in holes')
      && (a in holes ==> holes[a] == holes'[a])
  }

  /** The holes within `[lo, hi)` are the holes of `with`. */
  ghost predicate ListsWithin(holes: map<nat, nat>, with: seq<Block>, lo: nat, hi: nat) {
    && (forall k | 0 <= k < |with| :: Listed(holes, with[k]))
    && (forall a | a in holes && lo <= a < hi :: HasHole(with, a, holes[a]))
  }

  /** Replacing blocks `lo..hi` keeps the list of holes in step. */
  lemma ReplaceHoles(holes: map<nat, nat>, holes': map<nat, nat>,
                     blocks: seq<Block>, start: nat, end: nat, lo: nat, hi: nat, with: seq<Block>)
    requires Tiles(blocks, start, end) && lo <= hi < |blocks| && HolesMatch(holes, blocks)
    requires ListsWithin(holes', with, blocks[lo].addr, blocks[hi].End())
    requires SameOutside(holes, holes', blocks[lo].addr, blocks[hi].End())
    ensures HolesMatch(holes', Replace(blocks, lo, hi, with))
  {
    var r := Replace(blocks, lo, hi, with);
    forall k | 0 <= k < |r| ensures Listed(holes', r[k]) {
      var n := ReplaceAt(blocks, lo, hi, with, k);
      if !(lo <= k < lo + |with|) {
        assert Listed(holes, blocks[n]);
        OutsideRange(blocks, start, end, lo, hi, n);
      }
    }
    forall a | a in holes' ensures HasHole(r, a, holes'[a]) {
      if blocks[lo].addr <= a < blocks[hi].End() {
        assert HasHole(with, a, holes'[a]);
        var k :| 0 <= k < |with| && with[k] == Block(a, holes'[a], true);
        assert r[lo + k] == with[k];
      } else {
        assert HasHole(blocks, a, holes[a]);
        var n :| 0 <= n < |blocks| && blocks[n] == Block(a, holes[a], true);
        if lo <= n <= hi {
          InsideRange(blocks, start, end, lo, hi, n);
        } else if n < lo {
          assert r[n] == blocks[n];
        } else {
          assert r[n - hi - 1 + |with| + lo] == blocks[n];
        }
      }
    }
  }

  /** The holes whose address lies among blocks `lo` to `hi` are some of those blocks. */
  lemma HoleInside(holes: map<nat, nat>, blocks: seq<Block>, start: nat, end: nat, lo: nat, hi: nat, a: nat)
    returns (n: nat)
    requires Tiles(blocks, start, end) && HolesMatch(holes, blocks) && lo <= hi < |blocks|
    requires a in holes && blocks[lo].addr <= a < blocks[hi].End()
    ensures lo <= n <= hi && blocks[n].addr == a && blocks[n].hole
  {
    assert HasHole(blocks, a, holes[a]);
    n :| 0 <= n < |blocks| && blocks[n] == Block(a, holes[a], true);
    if !(lo <= n <= hi) { OutsideRange(blocks, start, end, lo, hi, n); }
  }

  function CarvedHeader(header: Headers, node: nat, request: nat): Headers
    requires node in header && header[node].size >= request + OVERHEAD
  {
    header[node + OVERHEAD + request := Header(true, header[node].size - request - OVERHEAD)]
          [node := header[node].(size := request)]
  }

  function CarvedFoot(foot: Feet, node: nat, size: nat, request: nat): Feet {
    foot[node + HEADER_SIZE + size := node + OVERHEAD + request][node + HEADER_SIZE + request := node]
  }

  /** Giving out all of hole `i`. */
  lemma TakeKeeps(header: Headers, foot: Feet, holes: map<nat, nat>,
                  blocks: seq<Block>, start: nat, end: nat, i: nat, request: nat)
    requires Tiles(blocks, start, end) && InMemory(header, foot, blocks) && HolesMatch(holes, blocks)
    requires i < |blocks| && blocks[i].hole && request <= blocks[i].size && !Splits(blocks[i], request)
    ensures var node := blocks[i].addr;
            && InMemory(header[node := Header(false, blocks[i].size)], foot, AllocAt(blocks, i, request))
            && HolesMatch(holes - {node}, AllocAt(blocks, i, request))
  {
    var b := blocks[i];
    var taken := [b.(hole := false)];
    assert Stored(header, foot, b);
    forall a | a in holes && b.addr <= a < b.End() ensures a == b.addr {
      var n := HoleInside(holes, blocks, start, end, i, i, a);
    }
    ReplaceInMemory(header, foot, header[b.addr := Header(false, b.size)], foot, blocks, start, end, i, i, taken);
    ReplaceHoles(holes, holes - {b.addr}, blocks, start, end, i, i, taken);
  }

  /** Giving out the front of hole `i`: the words. */
  lemma CarveKeepsMemory(header: Headers, foot: Feet, blocks: seq<Block>, start: nat, end: nat, i: nat, request: nat)
    requires Tiles(blocks, start, end) && InMemory(header, foot, blocks)
    requires i < |blocks| && blocks[i].hole && Splits(blocks[i], request)
    requires blocks[i].addr in header && header[blocks[i].addr].size == blocks[i].size
    ensures InMemory(CarvedHeader(header, blocks[i].addr, request)[blocks[i].addr := Header(false, request)],
                     CarvedFoot(foot, blocks[i].addr, blocks[i].size, request),
                     AllocAt(blocks, i, request))
  {
    var b := blocks[i];
    var parts := [Block(b.addr, request, false), Block(b.addr + OVERHEAD + request, b.size - request - OVERHEAD, true)];
    var header' := CarvedHeader(header, b.addr, request)[b.addr := Header(false, request)];
    var foot' := CarvedFoot(foot, b.addr, b.size, request);
    assert Stored(header', foot', parts[0]) && Stored(header', foot', parts[1]);
    ReplaceInMemory(header, foot, header', foot', blocks, start, end, i, i, parts);
  }

  /** Giving out the front of hole `i`: the rest of it is a new hole. */
  lemma CarveKeepsHoles(holes: map<nat, nat>, blocks: seq<Block>, start: nat, end: nat, i: nat, request: nat)
    requires Tiles(blocks, start, end) && HolesMatch(holes, blocks)
    requires i < |blocks| && blocks[i].hole && Splits(blocks[i], request)
    ensures blocks[i].addr + OVERHEAD + request !in holes
    ensures var b := blocks[i];
      HolesMatch(holes[b.addr + OVERHEAD + request := b.size - request - OVERHEAD] - {b.addr},
                 AllocAt(blocks, i, request))
  {
    var b := blocks[i];
    var split := b.addr + OVERHEAD + request;
    var rest := Block(split, b.size - request - OVERHEAD, true);
    var parts := [Block(b.addr, request, false), rest];
    forall a | a in holes && b.addr <= a < b.End() ensures a == b.addr {
      var n := HoleInside(holes, blocks, start, end, i, i, a);
    }
    var holes' := holes[split := rest.size] - {b.addr};
    assert ListsWithin(holes', parts, b.addr, b.End()) by {
      assert parts[1] == rest;
      assert HasHole(parts, split, rest.size);
      forall a | a in holes' && b.addr <= a < b.End() ensures a == split {}
    }
    ReplaceHoles(holes, holes', blocks, start, end, i, i, parts);
  }

  function FreedLow(blocks: seq<Block>, i: nat): (lo: nat)
    requires i < |blocks|
    ensures lo <= i && lo >= i - 1
  {
    if MergesLeft(blocks, i) then i - 1 else i
  }

  function FreedHigh(blocks: seq<Block>, i: nat): (hi: nat)
    requires i < |blocks|
    ensures i <= hi < |blocks| && hi <= i + 1
  {
    if MergesRight(blocks, i) then i + 1 else i
  }

  /** The header words after `prev` has taken over the bytes of `head`. */
  function JoinLeft(header: Headers, prev: nat, head: nat): Headers
    requires prev in header && head in header
  {
    header[prev := Header(header[prev].hole, header[prev].size + OVERHEAD + header[head].size)]
  }

  /** The header words after `head` has taken over the bytes of `next`. */
  function JoinRight(header: Headers, head: nat, next: nat): Headers
    requires head in header && next in header && head != next
  {
    var merged := Header(header[head].hole, header[head].size + OVERHEAD + header[next].size);
    header[head := merged][next := Header(false, 0)]
  }

  /** The header words once blocks `lo` to `hi` around the freed block `i` are one hole. */
  function FreedHeader(header: Headers, blocks: seq<Block>, i: nat, lo: nat, hi: nat): Headers
    requires lo <= i <= hi < |blocks|
    requires blocks[lo].addr in header && blocks[i].addr in header && blocks[hi].addr in header
    requires lo < hi ==> blocks[lo].addr != blocks[hi].addr
  {
    var left := if lo < i then JoinLeft(header, blocks[lo].addr, blocks[i].addr) else header;
    var right := if i < hi then JoinRight(left, blocks[lo].addr, blocks[hi].addr) else left;
    right[blocks[lo].addr := right[blocks[lo].addr].(hole := true)]
  }

  function FreedFoot(foot: Feet, blocks: seq<Block>, i: nat, lo: nat, hi: nat): Feet
    requires lo <= i <= hi < |blocks|
  {
    var foot' := if lo < i then foot[blocks[i].Foot() := blocks[lo].addr] else foot;
    if i < hi then foot'[blocks[hi].Foot() := blocks[lo].addr] else foot'
  }

  function FreedHoles(holes: map<nat, nat>, blocks: seq<Block>, i: nat, lo: nat, hi: nat): map<nat, nat>
    requires lo <= i <= hi < |blocks|
  {
    var holes' := if lo < i then holes - {blocks[lo].addr} else holes;
    if i < hi then holes' - {blocks[hi].addr} else holes'
  }

  /** The blocks a free involves: their words, and their addresses in order. */
  ghost predicate Involved(header: Headers, foot: Feet, blocks: seq<Block>, i: nat, lo: nat, hi: nat) {
    && lo <= i <= hi < |blocks| && i - 1 <= lo && hi <= i + 1
    && Stored(header, foot, blocks[lo]) && Stored(header, foot, blocks[i]) && Stored(header, foot, blocks[hi])
    && (lo < i ==> blocks[lo].End() == blocks[i].addr)
    && (i < hi ==> blocks[i].End() == blocks[hi].addr)
  }

  lemma FreedWords(header: Headers, foot: Feet, blocks: seq<Block>, i: nat, lo: nat, hi: nat)
    requires Involved(header, foot, blocks, i, lo, hi)
    ensures OnlyWithin(header, foot, FreedHeader(header, blocks, i, lo, hi), FreedFoot(foot, blocks, i, lo, hi),
                       blocks[lo].addr, blocks[hi].End())
    ensures Stored(FreedHeader(header, blocks, i, lo, hi), FreedFoot(foot, blocks, i, lo, hi),
                   Block(blocks[lo].addr, Span(blocks, lo, hi), true))
  {
  }

  /** Freeing block `i` turns blocks `lo` to `hi` into one hole: the words. */
  lemma FreeKeepsMemory(header: Headers, foot: Feet, header': Headers, foot': Feet,
                        blocks: seq<Block>, start: nat, end: nat, i: nat, lo: nat, hi: nat)
    requires Tiles(blocks, start, end) && InMemory(header, foot, blocks)
    requires i < |blocks| && lo == FreedLow(blocks, i) && hi == FreedHigh(blocks, i)
    requires OnlyWithin(header, foot, header', foot', blocks[lo].addr, blocks[hi].End())
    requires Stored(header', foot', Block(blocks[lo].addr, Span(blocks, lo, hi), true))
    ensures InMemory(header', foot', FreeAt(blocks, i))
  {
    hide Tiles, OnlyWithin, Stored;
    var fused := Block(blocks[lo].addr, Span(blocks, lo, hi), true);
    ReplaceInMemory(header, foot, header', foot', blocks, start, end, lo, hi, [fused]);
  }

  /** The same for the list of holes. */
  lemma FreeKeepsHoles(holes: map<nat, nat>, blocks: seq<Block>, start: nat, end: nat, i: nat, lo: nat, hi: nat)
    requires Tiles(blocks, start, end) && HolesMatch(holes, blocks)
    requires i < |blocks| && !blocks[i].hole && lo == FreedLow(blocks, i) && hi == FreedHigh(blocks, i)
    ensures blocks[lo].addr !in FreedHoles(holes, blocks, i, lo, hi)
    ensures HolesMatch(FreedHoles(holes, blocks, i, lo, hi)[blocks[lo].addr := Span(blocks, lo, hi)], FreeAt(blocks, i))
  {
    hide Tiles, HolesMatch;
    var fused := Block(blocks[lo].addr, Span(blocks, lo, hi), true);
    var holes' := FreedHoles(holes, blocks, i, lo, hi)[fused.addr := fused.size];
    forall a | a in holes && blocks[lo].addr <= a < blocks[hi].End()
      ensures (a == blocks[lo].addr && lo < i) || (a == blocks[hi].addr && i < hi)
    {
      var n := HoleInside(holes, blocks, start, end, lo, hi, a);
    }
    InsideRange(blocks, start, end, lo, hi, lo);
    InsideRange(blocks, start, end, lo, hi, hi);
    assert [fused][0] == fused;
    assert HasHole([fused], fused.addr, fused.size);
    ReplaceHoles(holes, holes', blocks, start, end, lo, hi, [fused]);
  }

  /** What `free` reads about block `i` and the blocks beside it. */
  lemma Neighbours(header: Headers, foot: Feet, holes: map<nat, nat>, blocks: seq<Block>, start: nat, end: nat, i: nat)
    requires Tiles(blocks, start, end) && InMemory(header, foot, blocks) && HolesMatch(holes, blocks)
    requires i < |blocks|
    ensures Involved(header, foot, blocks, i, FreedLow(blocks, i), FreedHigh(blocks, i))
    ensures i == 0 <==> blocks[i].addr == start
    ensures i > 0 ==> Involved(header, foot, blocks, i, i - 1, i) && Listed(holes, blocks[i - 1])
    ensures i + 1 < |blocks| ==> Involved(header, foot, blocks, i, i, i + 1) && Listed(holes, blocks[i + 1])
    ensures i + 1 == |blocks| ==> blocks[i].End() == end
  {
    InArena(blocks, start, end, i);
  }

  /** What the bins read in the headers are the sizes of the holes. */
  lemma HeadersFollow(header: Headers, foot: Feet, holes: map<nat, nat>, blocks: seq<Block>)
    requires InMemory(header, foot, blocks) && HolesMatch(holes, blocks)
    ensures HeadersHold(header, holes)
  {
    forall a | a in holes ensures a in header && header[a] == Header(true, holes[a]) {
      assert HasHole(blocks, a, holes[a]);
      var n :| 0 <= n < |blocks| && blocks[n] == Block(a, holes[a], true);
      assert Stored(header, foot, blocks[n]);
    }
  }

  lemma NoFitMatch(holes: map<nat, nat>, blocks: seq<Block>, request: nat)
    requires HolesMatch(holes, blocks)
    ensures (forall a | a in holes :: holes[a] < request) <==> (forall b | b in blocks && b.hole :: b.size < request)
  {
    forall b | b in blocks && b.hole ensures b.addr in holes && holes[b.addr] == b.size {
      var i :| 0 <= i < |blocks| && blocks[i] == b;
      assert Listed(holes, blocks[i]);
    }
    forall a | a in holes ensures Block(a, holes[a], true) in blocks {
      assert HasHole(blocks, a, holes[a]);
    }
  }

  lemma BestFitMatch(holes: map<nat, nat>, blocks: seq<Block>, i: nat, request: nat)
    requires HolesMatch(holes, blocks) && i < |blocks| && blocks[i].hole && request <= blocks[i].size
    requires forall a | a in holes && request <= holes[a] :: blocks[i].size <= holes[a]
    ensures BestFit(blocks, i, request)
  {
    forall b | b in blocks && b.hole && request <= b.size ensures blocks[i].size <= b.size {
      var n :| 0 <= n < |blocks| && blocks[n] == b;
      assert Listed(holes, blocks[n]);
    }
  }

  /** Every hole is smaller than the arena, so each has a usable bin. */
  lemma HolesAreSmall(holes: map<nat, nat>, blocks: seq<Block>, start: nat, end: nat)
    requires Tiles(blocks, start, end) && HolesMatch(holes, blocks) && end - start - OVERHEAD < SIZE_LIMIT
    ensures forall a | a in holes :: holes[a] < SIZE_LIMIT
  {
    TilesAreApart(blocks, start, end);
    forall a | a in holes ensures holes[a] < SIZE_LIMIT {
      assert HasHole(blocks, a, holes[a]);
    }
  }

  lemma HoleIndex(holes: map<nat, nat>, blocks: seq<Block>, a: nat) returns (i: nat)
    requires HolesMatch(holes, blocks) && a in holes
    ensures i < |blocks| && blocks[i] == Block(a, holes[a], true)
  {
    assert HasHole(blocks, a, holes[a]);
    i :| 0 <= i < |blocks| && blocks[i] == Block(a, holes[a], true);
  }

  class Heap {
    var start: nat
    var size: nat
    var end: nat
    var header: Headers
    var foot: Feet
    var free: FreeLists

    ghost var bins: seq<seq<nat>>
    ghost var blocks: seq<Block>
    ghost var holes: map<nat, nat>

    ghost predicate Valid()
      reads this
    {
      && end == start + size && size < OVERHEAD + SIZE_LIMIT && start != NULL
      && Tiles(blocks, start, end)
      && InMemory(header, foot, blocks)
      && HolesMatch(holes, blocks)
      && BinsOk()
      // the word behind the arena reads as a header that is not a hole
      && end in header && !header[end].hole
    }

    /** The bins file the holes, and the heads and link words spell them out. */
    ghost predicate BinsOk()
      reads this
    {
      BinsHold(bins, holes) && BinsLinked(free, bins)
    }

    /** `memory` is what the header words held before; only the one behind the arena matters. */
    constructor (start: nat, total: nat, memory: Headers)
      requires OVERHEAD <= total < OVERHEAD + SIZE_LIMIT && start != NULL
      requires start + total in memory && !memory[start + total].hole
      ensures Valid()
      ensures this.start == start && this.size == total
      ensures blocks == [Block(start, total - OVERHEAD, true)] == [Block(start, total - 32, true)]
    {
      var region := Header(true, total - OVERHEAD);
      var words := memory[start := region];
      var k := GetBinIndex(region.size);
      ghost var empty: seq<seq<nat>> := seq(BIN_COUNT, _ => []);
      var none := FreeLists(seq(BIN_COUNT, _ => NULL), map[], map[]);
      NoBins();
      BinLinkedAt(none, empty, k);
      ghost var at;
      var head, next, prev;
      head, next, prev, at := AddNode(words, map[], map[], none.heads[k], start, empty[k]);
      BinIndexUsable(region.size);
      FileHole(empty, map[], start, region.size, k, at);
      BinRewritten(none, next, prev, empty, map[], k, head, Inserted(empty[k], at, start), start);
      this.header := words;
      this.foot := map[start + HEADER_SIZE + region.size := start];
      this.free := FreeLists(none.heads[k := head], next, prev);
      this.bins := empty[k := Inserted(empty[k], at, start)];
      this.start, this.size, this.end := start, total, start + total;
      this.blocks := [Block(start, region.size, true)];
      this.holes := map[start := region.size];
    }

    /** Files `node` under the size in its header. */
    method File(node: nat)
      requires node in header && header[node].hole && header[node].size < SIZE_LIMIT && node != NULL
      requires BinsOk() && HeadersHold(header, holes) && node !in holes
      modifies `free, `bins, `holes
      ensures holes == old(holes)[node := header[node].size]
      ensures BinsOk() && HeadersHold(header, holes)
    {
      hide BinIndex, BinLinked, SameElsewhere, BinsHold, BinsLinked;
      var k := GetBinIndex(header[node].size);
      BinIndexUsable(header[node].size);
      NotFiled(bins, holes, k, node);
      BinLinkedAt(free, bins, k);
      BinKnown(header, bins, holes, k);
      var head, next, prev;
      ghost var at;
      head, next, prev, at := AddNode(header, free.next, free.prev, free.heads[k], node, bins[k]);
      FileHole(bins, holes, node, header[node].size, k, at);
      BinRewritten(free, next, prev, bins, holes, k, head, Inserted(bins[k], at, node), node);
      free := FreeLists(free.heads[k := head], next, prev);
      bins := bins[k := Inserted(bins[k], at, node)];
      holes := holes[node := header[node].size];
    }

    /** Takes `node` out of bin `k`, whatever its header says by now. */
    method Unfile(k: nat, node: nat)
      requires BinsOk() && node in holes && k == BinIndex(holes[node])
      modifies `free, `bins, `holes
      ensures holes == old(holes) - {node}
      ensures BinsOk()
    {
      hide BinIndex, BinLinked, SameElsewhere, BinsHold, BinsLinked;
      FiledOnce(bins, holes, node);
      BinLinkedAt(free, bins, k);
      var head, next, prev;
      ghost var at;
      head, next, prev, at := RemoveNode(free.next, free.prev, free.heads[k], node, bins[k]);
      assert at < |bins[k]| by { assert bins[k][..|bins[k]|] == bins[k]; }
      UnfileHole(bins, holes, node, k, at);
      BinRewritten(free, next, prev, bins, holes, k, head, Cut(bins[k], at), node);
      free := FreeLists(free.heads[k := head], next, prev);
      bins := bins[k := Cut(bins[k], at)];
      holes := holes - {node};
    }

    /** The words and bins after hole `node` has given up its tail to a new hole. */
    method Carve(node: nat, request: nat)
      requires BinsOk() && HeadersHold(header, holes)
      requires node in holes && node + OVERHEAD + request != NULL && request + OVERHEAD < holes[node] < SIZE_LIMIT
      requires node + OVERHEAD + request !in holes
      modifies `header, `foot, `free, `bins, `holes
      ensures BinsOk()
      ensures header == CarvedHeader(old(header), node, request)
      ensures foot == CarvedFoot(old(foot), node, old(header[node].size), request)
      ensures holes == old(holes)[node + OVERHEAD + request := old(holes[node]) - request - OVERHEAD]
    {
      hide BinsHold, BinsLinked, BinIndex;
      var split := node + OVERHEAD + request;
      header := header[split := Header(true, header[node].size - request - OVERHEAD)];
      foot := foot[split + HEADER_SIZE + header[split].size := split];
      File(split);
      header := header[node := header[node].(size := request)];
      foot := foot[node + HEADER_SIZE + request := node];
    }

    /** Turns hole `node`, filed in bin `k`, into a live block of `request` bytes. */
    method Give(node: nat, k: nat, request: nat, ghost i: nat)
      requires Valid()
      requires node in holes && k == BinIndex(holes[node])
      requires i < |blocks| && blocks[i] == Block(node, holes[node], true) && request <= blocks[i].size
      modifies this
      ensures Valid() && start == old(start) && size == old(size)
      ensures blocks == AllocAt(old(blocks), i, request)
      ensures i < |blocks| && (blocks[i].size == request || old(blocks)[i].size <= request + 36)
    {
      hide Tiles, InMemory, HolesMatch, BinsHold, BinsLinked, BinIndex;
      AllocIs(blocks, i, request);
      HeadersFollow(header, foot, holes, blocks);
      HolesAreSmall(holes, blocks, start, end);
      AllocTiles(blocks, start, end, i, request);
      InArena(blocks, start, end, i);
      if header[node].size - request > OVERHEAD + MIN_ALLOC_SIZE {
        CarveKeepsMemory(header, foot, blocks, start, end, i, request);
        CarveKeepsHoles(holes, blocks, start, end, i, request);
        Carve(node, request);
      } else {
        TakeKeeps(header, foot, holes, blocks, start, end, i, request);
      }
      header := header[node := header[node].(hole := false)];
      Unfile(k, node);
      OutsideBins(free, bins, holes, node);
      free := free.(next := free.next[node := NULL], prev := free.prev[node := NULL]);
      blocks := AllocAt(blocks, i, request);
    }

    /** Gives out a best fit, splitting it when the rest is worth a block of its own. */
    method Malloc(request: nat) returns (r: Option<nat>, ghost i: nat)
      requires Valid()
      modifies this
      ensures Valid() && start == old(start) && size == old(size)
      ensures r.None? <==> forall b | b in old(blocks) && b.hole :: b.size < request
      ensures r.None? ==> blocks == old(blocks)
      ensures r.Some? ==> BestFit(old(blocks), i, request) && blocks == AllocAt(old(blocks), i, request)
      ensures r.Some? ==> i < |old(blocks)| && old(blocks)[i].hole && request <= old(blocks)[i].size
      ensures r.Some? ==> forall b | b in old(blocks) && b.hole && request <= b.size :: old(blocks)[i].size <= b.size
      ensures r.Some? ==> r.value == old(blocks)[i].Payload() == old(blocks)[i].addr + 24
      ensures r.Some? && old(blocks)[i].size <= request + 36 ==>
        blocks == old(blocks)[i := Block(r.value - 24, old(blocks)[i].size, false)]
      ensures r.Some? && old(blocks)[i].size > request + 36 ==>
        blocks == old(blocks)[..i] + [Block(r.value - 24, request, false),
          Block(r.value + request + 8, old(blocks)[i].size - request - 32, true)] + old(blocks)[i + 1..]
      ensures r.Some? ==> i < |blocks| && (blocks[i].size == request || old(blocks)[i].size <= request + 36)
    {
      hide Tiles, InMemory, HolesMatch, BinsHold, BinsLinked, BinIndex, AllocAt;
      HeadersFollow(header, foot, holes, blocks);
      HolesAreSmall(holes, blocks, start, end);
      NoFitMatch(holes, blocks, request);
      var found, k := Search(header, free, request, bins, holes);
      if found == NULL { return None, 0; }
      i := HoleIndex(holes, blocks, found);
      BestFitMatch(holes, blocks, i, request);
      AllocIs(blocks, i, request);
      Give(found, k, request, i);
      r := Some(found + HEADER_SIZE);
    }

    /** If `prev` is a hole it leaves its bin and takes over the bytes of `head`. */
    method MergeLeft(prev: nat, head: nat) returns (merged: nat)
      requires prev in header && head in header && prev != head && BinsOk()
      requires header[prev].hole ==> prev in holes && holes[prev] == header[prev].size
      modifies `header, `foot, `free, `bins, `holes
      ensures BinsOk()
      ensures if old(header[prev].hole) then
                && merged == prev && holes == old(holes) - {prev}
                && header == JoinLeft(old(header), prev, head)
                && foot == old(foot)[head + HEADER_SIZE + old(header[head].size) := prev]
              else merged == head && unchanged(this)
    {
      hide BinsHold, BinsLinked, BinIndex;
      merged := head;
      if header[prev].hole {
        var k := GetBinIndex(header[prev].size);
        Unfile(k, prev);
        header := header[prev := header[prev].(size := header[prev].size + OVERHEAD + header[head].size)];
        foot := foot[head + HEADER_SIZE + header[head].size := prev];
        merged := prev;
      }
    }

    /** If `next` is a hole it leaves its bin, `head` takes over its bytes and its words are wiped. */
    method MergeRight(head: nat, next: nat)
      requires head in header && next in header && next == head + OVERHEAD + header[head].size && BinsOk()
      requires header[next].hole ==> next in holes && holes[next] == header[next].size
      modifies `header, `foot, `free, `bins, `holes
      ensures BinsOk()
      ensures if old(header[next].hole) then
                && holes == old(holes) - {next}
                && header == JoinRight(old(header), head, next)
                && foot == old(foot)[next + HEADER_SIZE + old(header[next].size) := head]
              else unchanged(this)
    {
      hide BinsHold, BinsLinked, BinIndex;
      if header[next].hole {
        var k := GetBinIndex(header[next].size);
        Unfile(k, next);
        header := header[head := header[head].(size := header[head].size + OVERHEAD + header[next].size)];
        foot := foot[next + HEADER_SIZE + header[next].size := 0];
        header := header[next := Header(false, 0)];
        foot := foot[head + HEADER_SIZE + header[head].size := head];
      }
    }

    /** Joins the block with payload `p` to the holes beside it, which leave their bins. */
    method Merge(p: nat, ghost i: nat, ghost lo: nat, ghost hi: nat) returns (head: nat)
      requires Valid()
      requires i < |blocks| && !blocks[i].hole && blocks[i].Payload() == p
      requires lo == FreedLow(blocks, i) && hi == FreedHigh(blocks, i)
      requires Involved(header, foot, blocks, i, lo, hi)
      modifies `header, `foot, `free, `bins, `holes
      ensures head == blocks[lo].addr
      ensures header == FreedHeader(old(header), blocks, i, lo, hi)
      ensures foot == FreedFoot(old(foot), blocks, i, lo, hi)
      ensures holes == FreedHoles(old(holes), blocks, i, lo, hi)
      ensures BinsOk()
    {
      hide Tiles, InMemory, HolesMatch, BinsHold, BinsLinked, BinIndex;
      Neighbours(header, foot, holes, blocks, start, end, i);
      head := p - HEADER_SIZE;
      if head != start {
        var next := head + HEADER_SIZE + header[head].size + FOOTER_SIZE;
        head := MergeLeft(foot[head - FOOTER_SIZE], head);
        assert head == blocks[lo].addr && header[head].size == blocks[i].End() - head - OVERHEAD;
        assert header[next].hole <==> i < hi;
        MergeRight(head, next);
      }
      header := header[head := header[head].(hole := true)];
    }

    /** Frees the live block with payload `p` and merges it with free neighbours. */
    method Free(p: nat, ghost i: nat)
      requires Valid()
      requires i < |blocks| && !blocks[i].hole && blocks[i].Payload() == p
      modifies this
      ensures Valid() && start == old(start) && size == old(size)
      ensures blocks == FreeAt(old(blocks), i)
    {
      hide Tiles, InMemory, HolesMatch, BinsHold, BinsLinked, BinIndex, Involved, FreedHeader, FreedFoot, FreedHoles,
        Span, HeadersHold, FreeAt;
      ghost var lo, hi := FreedLow(blocks, i), FreedHigh(blocks, i);
      FreeSteps(header, foot, holes, blocks, start, end, i, lo, hi);
      var head := Merge(p, i, lo, hi);
      blocks := FreeAt(blocks, i);
      File(head);
    }
  }

  /**
   What the memory of a heap holds: every block has its size and its state in a word at its start and its address
   in a word 24 bytes behind its payload's start, and the next block follows after 8 bytes more.
   */
  lemma Spelled(h: Heap, i: nat)
    requires h.Valid() && i < |h.blocks|
    ensures var b := h.blocks[i];
      && b.addr in h.header && h.header[b.addr] == Header(b.hole, b.size)
      && b.addr + 24 + b.size in h.foot && h.foot[b.addr + 24 + b.size] == b.addr
      && (i == 0 ==> b.addr == h.start)
      && b.addr + b.size + 32 == if i + 1 < |h.blocks| then h.blocks[i + 1].addr else h.start + h.size
  {
    hide BinsHold, BinsLinked, HolesMatch;
    assert i + 1 < |h.blocks| ==> h.blocks[i + 1].addr == h.blocks[i].End();
  }

  /** All that a free of block `i` has to keep. */
  lemma FreeSteps(header: Headers, foot: Feet, holes: map<nat, nat>, blocks: seq<Block>, start: nat, end: nat,
                  i: nat, lo: nat, hi: nat)
    requires Tiles(blocks, start, end) && InMemory(header, foot, blocks) && HolesMatch(holes, blocks)
    requires i < |blocks| && !blocks[i].hole && lo == FreedLow(blocks, i) && hi == FreedHigh(blocks, i)
    requires end - start - OVERHEAD < SIZE_LIMIT && end in header
    ensures Involved(header, foot, blocks, i, lo, hi) && Tiles(FreeAt(blocks, i), start, end)
    ensures var header', head := FreedHeader(header, blocks, i, lo, hi), blocks[lo].addr;
      && InMemory(header', FreedFoot(foot, blocks, i, lo, hi), FreeAt(blocks, i))
      && head >= start && head in header' && header'[head].hole && header'[head].size < SIZE_LIMIT
      && head !in FreedHoles(holes, blocks, i, lo, hi)
      && HolesMatch(FreedHoles(holes, blocks, i, lo, hi)[head := header'[head].size], FreeAt(blocks, i))
      && HeadersHold(header', FreedHoles(holes, blocks, i, lo, hi))
      && end in header' && header'[end] == header[end]
  {
    hide Tiles, InMemory, HolesMatch, Span;
    FuseTiles(blocks, start, end, lo, hi);
    Neighbours(header, foot, holes, blocks, start, end, i);
    FreedWords(header, foot, blocks, i, lo, hi);
    InArena(blocks, start, end, hi);
    InArena(blocks, start, end, lo);
    hide FreedHeader, FreedFoot, FreedHoles, Involved, FreeAt;
    var header', foot' := FreedHeader(header, blocks, i, lo, hi), FreedFoot(foot, blocks, i, lo, hi);
    FreeKeepsMemory(header, foot, header', foot', blocks, start, end, i, lo, hi);
    FreeKeepsHoles(holes, blocks, start, end, i, lo, hi);
    var holes' := FreedHoles(holes, blocks, i, lo, hi)[blocks[lo].addr := Span(blocks, lo, hi)];
    HeadersFollow(header', foot', holes', FreeAt(blocks, i));
    HolesAreSmall(holes', FreeAt(blocks, i), start, end);
  }

  // ---------------------------------------------------------------- a client

  /** What a client does: ask for memory, or give back one of the pointers it holds. */
  datatype Request = Ask(size: nat) | Return(which: nat)

  ghost predicate Live(blocks: seq<Block>, p: nat) {
    exists i :: 0 <= i < |blocks| && !blocks[i].hole && blocks[i].Payload() == p
  }

  ghost predicate Owned(blocks: seq<Block>, held: seq<nat>) {
    && (forall k | 0 <= k < |held| :: Live(blocks, held[k]))
    && (forall k, n | 0 <= k < n < |held| :: held[k] != held[n])
  }

  lemma LiveIndex(blocks: seq<Block>, p: nat) returns (i: nat)
    requires Live(blocks, p)
    ensures i < |blocks| && !blocks[i].hole && blocks[i].Payload() == p
  {
    i :| 0 <= i < |blocks| && !blocks[i].hole && blocks[i].Payload() == p;
  }

  lemma StaysLive(blocks: seq<Block>, b: Block)
    requires b in blocks && !b.hole
    ensures Live(blocks, b.Payload())
  {
    var i :| 0 <= i < |blocks| && blocks[i] == b;
  }

  lemma OwnedAfterAlloc(blocks: seq<Block>, i: nat, size: nat, held: seq<nat>, start: nat, end: nat)
    requires Tiles(blocks, start, end) && Owned(blocks, held)
    requires i < |blocks| && blocks[i].hole && size <= blocks[i].size
    ensures Owned(AllocAt(blocks, i, size), held + [blocks[i].Payload()])
  {
    hide AllocAt, Tiles;
    var p, after := blocks[i].Payload(), AllocAt(blocks, i, size);
    forall k | 0 <= k < |held| ensures Live(after, held[k]) && held[k] != p {
      var n := LiveIndex(blocks, held[k]);
      AllocKeepsLive(blocks, i, size, blocks[n]);
      StaysLive(after, blocks[n]);
      Ordered(blocks, start, end, if n < i then n else i, if n < i then i else n);
    }
    var given := Block(blocks[i].addr, if Splits(blocks[i], size) then size else blocks[i].size, false);
    AllocKeepsLive(blocks, i, size, given);
    StaysLive(after, given);
  }

  lemma OwnedAfterFree(blocks: seq<Block>, i: nat, held: seq<nat>, which: nat, start: nat, end: nat)
    requires Tiles(blocks, start, end) && i < |blocks| && !blocks[i].hole && Owned(blocks, held)
    requires which < |held| && held[which] == blocks[i].Payload()
    ensures Owned(FreeAt(blocks, i), Cut(held, which))
  {
    hide FreeAt, Tiles;
    var after, left := FreeAt(blocks, i), Cut(held, which);
    assert forall k | 0 <= k < |left| :: left[k] == held[if k < which then k else k + 1];
    forall k | 0 <= k < |left| ensures Live(after, left[k]) {
      var n := LiveIndex(blocks, left[k]);
      FreeKeepsOtherLive(blocks, start, end, i, blocks[n]);
      StaysLive(after, blocks[n]);
    }
  }

  /**
   What one request does to the blocks and to the pointers the client holds: a request for memory is met by a
   best fit, whose payload joins the pointers, unless no hole fits; a pointer given back goes, with its block.
   */
  ghost predicate Served(request: Request, blocks: seq<Block>, held: seq<nat>, blocks': seq<Block>, held': seq<nat>) {
    match request
    case Ask(size) =>
      if forall b | b in blocks && b.hole :: b.size < size then blocks' == blocks && held' == held
      else exists i: nat :: Given(blocks, i, size, held, blocks', held')
    case Return(w) =>
      if w >= |held| then blocks' == blocks && held' == held
      else held' == Cut(held, w) && exists i: nat :: Freed(blocks, i, held[w], blocks')
  }

  ghost predicate Given(blocks: seq<Block>, i: nat, size: nat, held: seq<nat>, blocks': seq<Block>, held': seq<nat>) {
    && BestFit(blocks, i, size) && blocks' == AllocAt(blocks, i, size)
    && held' == held + [blocks[i].Payload()]
  }

  ghost predicate Freed(blocks: seq<Block>, i: nat, p: nat, blocks': seq<Block>) {
    i < |blocks| && !blocks[i].hole && blocks[i].Payload() == p && blocks' == FreeAt(blocks, i)
  }

  /** The states a client of a fresh arena goes through, one for each request. */
  ghost predicate Session(start: nat, total: nat, requests: seq<Request>, states: seq<seq<Block>>,
                          helds: seq<seq<nat>>) {
    && total >= OVERHEAD && |states| == |helds| == |requests| + 1
    && states[0] == [Block(start, total - OVERHEAD, true)] && helds[0] == []
    && forall k | 0 <= k < |requests| :: Served(requests[k], states[k], helds[k], states[k + 1], helds[k + 1])
  }

  lemma ServedSafely(request: Request, blocks: seq<Block>, held: seq<nat>, blocks': seq<Block>, held': seq<nat>,
                     start: nat, end: nat)
    requires Served(request, blocks, held, blocks', held') && Tiles(blocks, start, end) && Owned(blocks, held)
    ensures Tiles(blocks', start, end) && Owned(blocks', held')
  {
    hide Tiles, Owned, AllocAt, FreeAt;
    match request
    case Ask(size) =>
      if !forall b | b in blocks && b.hole :: b.size < size {
        var i: nat :| Given(blocks, i, size, held, blocks', held');
        AllocTiles(blocks, start, end, i, size);
        OwnedAfterAlloc(blocks, i, size, held, start, end);
      }
    case Return(w) =>
      if w < |held| {
        var i: nat :| Freed(blocks, i, held[w], blocks');
        FuseTiles(blocks, start, end, FreedLow(blocks, i), FreedHigh(blocks, i));
        FreeAtIs(blocks, i);
        OwnedAfterFree(blocks, i, held, w, start, end);
      }
  }

  lemma FreeAtIs(blocks: seq<Block>, i: nat)
    requires i < |blocks|
    ensures FreeAt(blocks, i) == Fuse(blocks, FreedLow(blocks, i), FreedHigh(blocks, i))
  {
  }

  lemma {:induction false} SessionTiles(start: nat, total: nat, requests: seq<Request>, states: seq<seq<Block>>,
                                        helds: seq<seq<nat>>, k: nat)
    requires Session(start, total, requests, states, helds) && k <= |requests|
    ensures Tiles(states[k], start, start + total) && Owned(states[k], helds[k])
    decreases k
  {
    hide Served, Tiles, Owned;
    if k == 0 {
      FreshArena(start, total);
    } else {
      SessionTiles(start, total, requests, states, helds, k - 1);
      assert Served(requests[k - 1], states[k - 1], helds[k - 1], states[k - 1 + 1], helds[k - 1 + 1]);
      ServedSafely(requests[k - 1], states[k - 1], helds[k - 1], states[k], helds[k], start, start + total);
    }
  }

  lemma FreshArena(start: nat, total: nat)
    requires total >= OVERHEAD
    ensures Tiles([Block(start, total - OVERHEAD, true)], start, start + total)
    ensures Owned([Block(start, total - OVERHEAD, true)], [])
  {
  }

  /** At every moment of every client the arena is tiled and conserved, and the pointers it holds are live and apart. */
  lemma SessionIsSafe(start: nat, total: nat, requests: seq<Request>, states: seq<seq<Block>>, helds: seq<seq<nat>>,
                      k: nat)
    requires Session(start, total, requests, states, helds) && k <= |requests|
    ensures Tiles(states[k], start, start + total) && Footprint(states[k]) == total
    ensures Owned(states[k], helds[k]) && PayloadsDisjoint(states[k], start, start + total)
  {
    hide Served, Owned, Tiles;
    SessionTiles(start, total, requests, states, helds, k);
    TilesConserve(states[k], start, start + total);
    TilesAreApart(states[k], start, start + total);
  }

  /** A client that never gives back the pointer at the start of the arena never sees two neighbouring holes. */
  lemma {:induction false} SessionIsCoalesced(start: nat, total: nat, requests: seq<Request>, states: seq<seq<Block>>,
                                              helds: seq<seq<nat>>, k: nat)
    requires Session(start, total, requests, states, helds) && k <= |requests|
    requires forall n | 0 <= n < k && requests[n].Return? && requests[n].which < |helds[n]| ::
      helds[n][requests[n].which] != start + HEADER_SIZE
    ensures Coalesced(states[k])
    decreases k
  {
    hide Tiles, Owned, Coalesced, AllocAt, FreeAt;
    if k == 0 {
      OneBlock(start, total);
    } else {
      SessionIsCoalesced(start, total, requests, states, helds, k - 1);
      SessionTiles(start, total, requests, states, helds, k - 1);
      var blocks, held := states[k - 1], helds[k - 1];
      assert Served(requests[k - 1], blocks, held, states[k - 1 + 1], helds[k - 1 + 1]);
      match requests[k - 1]
      case Ask(size) =>
        if states[k] != blocks {
          var i: nat :| Given(blocks, i, size, held, states[k], helds[k]);
          AllocCoalesced(blocks, i, size);
        }
      case Return(w) =>
        if w < |held| {
          var i: nat :| Freed(blocks, i, held[w], states[k]);
          InArena(blocks, start, start + total, i);
          FreeCoalescedIff(blocks, i);
        }
    }
  }

  lemma OneBlock(start: nat, total: nat)
    requires total >= OVERHEAD
    ensures Coalesced([Block(start, total - OVERHEAD, true)])
  {
  }

  /** What requests take up when each costs `extra` bytes beside its own. */
  function Charge(requests: seq<Request>, extra: nat): nat {
    if requests == [] then 0 else
      var n := |requests| - 1;
      Charge(requests[..n], extra) + extra + (if requests[n].Ask? then requests[n].size else 0)
  }

  predicate AllAsks(requests: seq<Request>) {
    forall k | 0 <= k < |requests| :: requests[k].Ask?
  }

  /** The live blocks of requests that were served one behind the other, and the pointers to them. */
  function Packed(start: nat, requests: seq<Request>): (r: (seq<Block>, seq<nat>))
    requires AllAsks(requests)
    ensures |r.0| == |r.1| == |requests| && (forall b | b in r.0 :: !b.hole)
  {
    if requests == [] then ([], []) else
      var n := |requests| - 1;
      var (blocks, held) := Packed(start, requests[..n]);
      var at := start + Charge(requests[..n], 32);
      (blocks + [Block(at, requests[n].size, false)], held + [at + 24])
  }

  lemma {:induction false} ChargeCut(requests: seq<Request>, k: nat, extra: nat)
    requires k <= |requests|
    ensures Charge(requests[..k], extra) + extra * (|requests| - k) <= Charge(requests, extra)
    decreases |requests|
  {
    var n := |requests| - 1;
    if k > n {
      assert requests[..k] == requests;
    } else {
      ChargeCut(requests[..n], k, extra);
      assert requests[..n][..k] == requests[..k];
    }
  }

  lemma {:induction false} ChargeApart(requests: seq<Request>)
    ensures Charge(requests, 68) == Charge(requests, 32) + 36 * |requests|
  {
    if requests == [] {
    } else {
      ChargeApart(requests[..|requests| - 1]);
    }
  }

  /** The one hole, behind live blocks, serves a request that fits and shrinks, or goes when little would be left. */
  lemma LastHoleServes(blocks: seq<Block>, hole: Block, held: seq<nat>, size: nat, blocks': seq<Block>,
                       held': seq<nat>)
    requires hole.hole && (forall b | b in blocks :: !b.hole) && size <= hole.size
    requires Served(Ask(size), blocks + [hole], held, blocks', held')
    ensures held' == held + [hole.addr + 24]
    ensures hole.size > size + 36 ==>
      blocks' == blocks + [Block(hole.addr, size, false)] + [Block(hole.addr + size + 32, hole.size - size - 32, true)]
  {
    hide AllocAt;
    var all := blocks + [hole];
    assert all[|blocks|] == hole && hole in all;
    var i: nat :| Given(all, i, size, held, blocks', held');
    assert i == |blocks|;
    AllocIs(all, i, size);
    assert all[..|blocks|] == blocks && all[|blocks| + 1..] == [];
  }

  /** The requests so far are packed from the start of the arena on, and what is left is one hole. */
  ghost predicate RestIsHole(start: nat, total: nat, requests: seq<Request>, blocks: seq<Block>) {
    && AllAsks(requests) && Charge(requests, 32) + 32 <= total
    && var used := Charge(requests, 32);
       blocks == Packed(start, requests).0 + [Block(start + used, total - used - 32, true)]
  }

  lemma NothingPacked(start: nat, total: nat, requests: seq<Request>)
    requires requests == [] && total >= 32
    ensures RestIsHole(start, total, requests, [Block(start, total - 32, true)]) && Packed(start, requests).1 == []
  {
  }

  lemma PackedNext(start: nat, requests: seq<Request>, k: nat)
    requires AllAsks(requests) && k < |requests|
    ensures var used, size := Charge(requests[..k], 32), requests[k].size;
      && Charge(requests[..k + 1], 32) == used + 32 + size
      && Packed(start, requests[..k + 1]).0 == Packed(start, requests[..k]).0 + [Block(start + used, size, false)]
      && Packed(start, requests[..k + 1]).1 == Packed(start, requests[..k]).1 + [start + used + 24]
  {
    assert requests[..k + 1][..k] == requests[..k];
  }

  /** Before request `k` there is room for it, and unless it is the last one the hole will be cut. */
  lemma RoomLeft(requests: seq<Request>, k: nat, total: nat)
    requires AllAsks(requests) && k < |requests| && Charge(requests, 68) <= total
    ensures var rest := total - Charge(requests[..k], 32) - 32;
      requests[k].size <= rest && (k + 1 < |requests| ==> rest > requests[k].size + 36)
  {
    ChargeApart(requests[..k]);
    ChargeCut(requests, k + 1, 68);
    assert requests[..k + 1][..k] == requests[..k];
  }

  /**
   A client that only asks finds its blocks one behind the other from the start of the arena, as long as the
   requests with 68 bytes for each fit the arena: all of them are served.
   */
  lemma {:induction false} AsksArePacked(start: nat, total: nat, requests: seq<Request>, states: seq<seq<Block>>,
                                         helds: seq<seq<nat>>, k: nat)
    requires Session(start, total, requests, states, helds) && k <= |requests|
    requires AllAsks(requests) && Charge(requests, 68) <= total
    ensures helds[k] == Packed(start, requests[..k]).1
    ensures k < |requests| ==> RestIsHole(start, total, requests[..k], states[k])
    decreases k
  {
    hide Served, Packed, Charge;
    if k == 0 {
      NothingPacked(start, total, requests[..k]);
    } else {
      var n := k - 1;
      AsksArePacked(start, total, requests, states, helds, n);
      RoomLeft(requests, n, total);
      assert Served(requests[n], states[n], helds[n], states[n + 1], helds[n + 1]);
      var used := Charge(requests[..n], 32);
      LastHoleServes(Packed(start, requests[..n]).0, Block(start + used, total - used - 32, true), helds[n],
                     requests[n].size, states[k], helds[k]);
      PackedNext(start, requests, n);
    }
  }

  /** A client of a fresh heap: every request is served as said, and what the client holds at the end is returned. */
  method Drive(h: Heap, requests: seq<Request>)
    returns (held: seq<nat>, ghost states: seq<seq<Block>>, ghost helds: seq<seq<nat>>)
    requires h.Valid() && h.size >= OVERHEAD && h.blocks == [Block(h.start, h.size - OVERHEAD, true)]
    modifies h
    ensures h.Valid() && h.start == old(h.start) && h.size == old(h.size)
    ensures Session(h.start, h.size, requests, states, helds)
    ensures states[|requests|] == h.blocks && helds[|requests|] == held
    ensures AllAsks(requests) && Charge(requests, 68) <= h.size ==>
      |held| == |requests| && held == Packed(h.start, requests).1
  {
    hide Tiles, InMemory, HolesMatch, BinsHold, BinsLinked, BinIndex, Owned, Served, Packed, Charge, AllAsks;
    held, states, helds := [], [h.blocks], [[]];
    for k := 0 to |requests|
      invariant h.Valid() && h.start == old(h.start) && h.size == old(h.size)
      invariant Session(h.start, h.size, requests[..k], states, helds)
      invariant states[k] == h.blocks && helds[k] == held
    {
      SessionTiles(h.start, h.size, requests[..k], states, helds, k);
      ghost var blocks, held0 := h.blocks, held;
      match requests[k] {
        case Ask(size) =>
          var r, i := h.Malloc(size);
          if r.Some? {
            held := held + [r.value];
          }
          AskServed(size, blocks, held0, h.blocks, held, r.Some?, i);
        case Return(which) =>
          if which < |held| {
            ghost var i := OwnedIndex(blocks, held, which);
            h.Free(held[which], i);
            held := Cut(held, which);
            ReturnServed(which, blocks, held0, h.blocks, i);
          } else {
            IdleServed(which, blocks, held);
          }
      }
      SessionGrows(h.start, h.size, requests, k, states, helds, h.blocks, held);
      states, helds := states + [h.blocks], helds + [held];
    }
    assert requests[..|requests|] == requests;
    if AllAsks(requests) && Charge(requests, 68) <= h.size {
      AsksArePacked(h.start, h.size, requests, states, helds, |requests|);
    }
  }

  lemma AskServed(size: nat, blocks: seq<Block>, held: seq<nat>, blocks': seq<Block>, held': seq<nat>, given: bool,
                  i: nat)
    requires !given <==> forall b | b in blocks && b.hole :: b.size < size
    requires !given ==> blocks' == blocks && held' == held
    requires given ==> Given(blocks, i, size, held, blocks', held')
    ensures Served(Ask(size), blocks, held, blocks', held')
  {
    hide Given;
  }

  lemma ReturnServed(w: nat, blocks: seq<Block>, held: seq<nat>, blocks': seq<Block>, i: nat)
    requires w < |held| && Freed(blocks, i, held[w], blocks')
    ensures Served(Return(w), blocks, held, blocks', Cut(held, w))
  {
    hide Freed;
  }

  lemma IdleServed(w: nat, blocks: seq<Block>, held: seq<nat>)
    requires w >= |held|
    ensures Served(Return(w), blocks, held, blocks, held)
  {
  }

  lemma SessionGrows(start: nat, total: nat, requests: seq<Request>, k: nat, states: seq<seq<Block>>,
                     helds: seq<seq<nat>>,
                     blocks: seq<Block>, held: seq<nat>)
    requires k < |requests| && Session(start, total, requests[..k], states, helds)
    requires Served(requests[k], states[k], helds[k], blocks, held)
    ensures Session(start, total, requests[..k + 1], states + [blocks], helds + [held])
  {
    hide Served;
    var states', helds', requests' := states + [blocks], helds + [held], requests[..k + 1];
    forall n | 0 <= n < k + 1 ensures Served(requests'[n], states'[n], helds'[n], states'[n + 1], helds'[n + 1]) {
      if n < k {
        assert Served(requests[..k][n], states[n], helds[n], states[n + 1], helds[n + 1]);
        assert requests[..k][n] == requests'[n] && states'[n] == states[n] && states'[n + 1] == states[n + 1];
      }
    }
  }

  lemma OwnedIndex(blocks: seq<Block>, held: seq<nat>, which: nat) returns (i: nat)
    requires Owned(blocks, held) && which < |held|
    ensures i < |blocks| && !blocks[i].hole && blocks[i].Payload() == held[which]
  {
    i := LiveIndex(blocks, held[which]);
  }

  /** Taking a small block from a fresh arena and giving it back leaves two neighbouring holes. */
  lemma FirstBlockUnmerged(start: nat, total: nat, states: seq<seq<Block>>, helds: seq<seq<nat>>)
    requires Session(start, total, [Ask(8), Return(0)], states, helds) && total > 8 + 2 * OVERHEAD + MIN_ALLOC_SIZE
    ensures !Coalesced(states[2])
  {
    var s0, s1 := states[0], states[1];
    assert Served(Ask(8), s0, helds[0], s1, helds[1]) && Served(Return(0), s1, helds[1], states[2], helds[2]);
    assert s0[0] in s0;
    var i: nat :| Given(s0, i, 8, helds[0], s1, helds[1]);
    assert s1 == AllocAt(s0, 0, 8) && |s1| == 2 && s1[1].hole;
    var j: nat :| Freed(s1, j, helds[1][0], states[2]);
    assert states[2][0].hole && states[2][1].hole;
  }

  /** So the skipped merge is reachable with two calls. */
  method FirstBlockStaysUnmerged(h: Heap)
    requires h.Valid() && h.size > 8 + 2 * OVERHEAD + MIN_ALLOC_SIZE
    requires h.blocks == [Block(h.start, h.size - OVERHEAD, true)]
    modifies h
    ensures h.Valid() && !Coalesced(h.blocks)
  {
    hide Session, Coalesced, Served;
    var held, states, helds := Drive(h, [Ask(8), Return(0)]);
    FirstBlockUnmerged(h.start, h.size, states, helds);
  }
}
