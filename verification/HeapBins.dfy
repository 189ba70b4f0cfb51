/**
 The allocator's free lists: one sorted, doubly linked list of holes per power of two.

 `holes` maps the address of every free block to its size; `BinsHold` says that the
 bins file exactly those holes.  The search lemmas show that looking through the
 bins upwards from a request's own bin finds a minimal hole over the whole heap.
 */
module HeapBins {
  import opened Prelude
  import opened HeapBlocks
  import opened Links

  const MAX_BIN_INDEX: nat := 30
  const BIN_COUNT: nat := 31

  datatype Header = Header(hole: bool, size: nat)

  type Headers = map<nat, Header>

  function FloorLog2(n: nat): nat
    requires n > 0
  {
    if n == 1 then 0 else FloorLog2(n / 2) + 1
  }

  lemma {:induction false} FloorLog2Bounds(n: nat)
    requires n > 0
    ensures Pow2(FloorLog2(n)) <= n < Pow2(FloorLog2(n) + 1)
  {
    if n <= 1 {
    } else {
      FloorLog2Bounds(n / 2);
    }
  }

  function BinIndex(size: nat): (k: nat)
    ensures k <= MAX_BIN_INDEX
  {
    var log := FloorLog2(if size < 4 then 4 else size);
    if log < 2 then 0 else if log - 2 > MAX_BIN_INDEX then MAX_BIN_INDEX else log - 2
  }

  lemma {:induction false} FloorLog2Monotone(m: nat, n: nat)
    requires 0 < m <= n
    ensures FloorLog2(m) <= FloorLog2(n)
  {
    if m <= 1 {
    } else {
      FloorLog2Monotone(m / 2, n / 2);
    }
  }

  lemma BinIndexMonotone(m: nat, n: nat)
    requires m <= n
    ensures BinIndex(m) <= BinIndex(n)
  {
    FloorLog2Monotone(if m < 4 then 4 else m, if n < 4 then 4 else n);
  }

  /** Every size a header can hold has a usable bin, and nothing larger has one. */
  lemma BinIndexUsable(size: nat)
    ensures BinIndex(size) < MAX_BIN_INDEX <==> size < SIZE_LIMIT
  {
    assert Pow2(32) == SIZE_LIMIT by {
      Pow2Plus8(0);
      Pow2Plus8(8);
      Pow2Plus8(16);
      Pow2Plus8(24);
    }
    var log := FloorLog2(if size < 4 then 4 else size);
    FloorLog2Bounds(if size < 4 then 4 else size);
    if size < SIZE_LIMIT {
      if log >= 32 { Pow2Monotone(32, log); }
    } else {
      if log < 32 { Pow2Monotone(log + 1, 32); }
    }
  }

  /** Bin `k` is for sizes from 2^(k + 2) on up to its double; smaller ones share the first, larger ones the last. */
  lemma BinIndexIs(size: nat)
    ensures size < 4 ==> BinIndex(size) == 0
    ensures 4 <= size < 0x1_0000_0000 ==> Pow2(BinIndex(size) + 2) <= size < Pow2(BinIndex(size) + 3)
    ensures size >= 0x1_0000_0000 ==> BinIndex(size) == 30
  {
    BinIndexUsable(size);
    FloorLog2Bounds(if size < 4 then 4 else size);
    FloorLog2Monotone(4, if size < 4 then 4 else size);
    assert FloorLog2(4) == 2;
  }

  lemma Pow2Plus8(n: nat)
    ensures Pow2(n + 8) == 0x100 * Pow2(n)
  {
    assert Pow2(n + 4) == 16 * Pow2(n) by {
      assert Pow2(n + 2) == 2 * Pow2(n + 1);
    }
    assert Pow2(n + 6) == 2 * Pow2(n + 5);
  }

  lemma {:induction false} Pow2Monotone(m: nat, n: nat)
    requires m <= n
    ensures Pow2(m) <= Pow2(n)
    decreases n
  {
    if m >= n {
    } else {
      Pow2Monotone(m, n - 1);
    }
  }

  method GetBinIndex(size: nat) returns (index: nat)
    ensures index == BinIndex(size)
  {
    var sz := if size < 4 then 4 else size;
    ghost var target := FloorLog2(sz);
    index := 0;
    while sz / 2 > 0
      invariant sz > 0 && index + FloorLog2(sz) == target
    {
      sz := sz / 2;
      index := index + 1;
    }
    assert index == target;
    FloorLog2Monotone(4, if size < 4 then 4 else size);
    index := index - 2;
    if index > MAX_BIN_INDEX { index := MAX_BIN_INDEX; }
  }

  // ---------------------------------------------------------------- one bin

  ghost predicate Hooked(next: Words, prev: Words, bin: seq<Ptr>, k: nat)
    requires k < |bin|
  {
    && bin[k] != NULL && bin[k] in next && bin[k] in prev
    && next[bin[k]] == NodeAt(bin, k + 1)
    && (k > 0 ==> prev[bin[k]] == bin[k - 1])
  }

  /** The words spell out the bin. What the first node has for a predecessor does not matter: it may be stale. */
  ghost predicate BinLinked(next: Words, prev: Words, head: Ptr, bin: seq<Ptr>) {
    && head == NodeAt(bin, 0) && Distinct(bin)
    && forall k | 0 <= k < |bin| :: Hooked(next, prev, bin, k)
  }

  predicate Known(header: Headers, bin: seq<Ptr>) {
    forall i | 0 <= i < |bin| :: bin[i] in header
  }

  /** Only the words of the bin's nodes and of `node` may differ. */
  ghost predicate SameElsewhere(next: Words, prev: Words, next': Words, prev': Words, bin: seq<Ptr>, node: Ptr) {
    forall q | q !in bin && q != node ::
      && (q in next ==> q in next' && next'[q] == next[q])
      && (q in prev ==> q in prev' && prev'[q] == prev[q])
  }

  lemma LinkedAt(next: Words, prev: Words, head: Ptr, bin: seq<Ptr>, k: nat)
    requires BinLinked(next, prev, head, bin)
    ensures head == NodeAt(bin, 0) && (NodeAt(bin, k) != NULL <==> k < |bin|)
    ensures k < |bin| ==> Hooked(next, prev, bin, k)
    ensures forall i, j | 0 <= i < j < |bin| :: bin[i] != bin[j]
  {
    if k < |bin| { assert Hooked(next, prev, bin, k); }
  }

  function Inserted(bin: seq<Ptr>, at: nat, node: Ptr): seq<Ptr>
    requires at <= |bin|
  {
    bin[..at] + [node] + bin[at..]
  }

  /** The link words after `node` has been put in front of position `at`. */
  function InsertedNext(next: Words, bin: seq<Ptr>, at: nat, node: Ptr): Words
    requires at <= |bin|
  {
    var next' := next[node := NodeAt(bin, at)];
    if at > 0 then next'[bin[at - 1] := node] else next'
  }

  /** The same for the words that lead back, whatever the new first node's says. */
  ghost predicate InsertedPrev(prev: Words, prev': Words, bin: seq<Ptr>, at: nat, node: Ptr)
    requires at <= |bin|
  {
    && node in prev' && (at > 0 ==> prev'[node] == bin[at - 1])
    && (at < |bin| ==> bin[at] in prev' && prev'[bin[at]] == node)
    && forall q | q in prev && q != node && q != NodeAt(bin, at) :: q in prev' && prev'[q] == prev[q]
  }

  lemma InsertLinked(next: Words, prev: Words, prev': Words, head: Ptr, bin: seq<Ptr>, at: nat, node: Ptr)
    requires BinLinked(next, prev, head, bin) && at <= |bin| && node != NULL && node !in bin
    requires InsertedPrev(prev, prev', bin, at, node)
    ensures BinLinked(InsertedNext(next, bin, at, node), prev', if at == 0 then node else head, Inserted(bin, at, node))
  {
    var bin', next' := Inserted(bin, at, node), InsertedNext(next, bin, at, node);
    assert forall k | 0 <= k < |bin'| :: bin'[k] == if k < at then bin[k] else if k == at then node else bin[k - 1];
    forall k | 0 <= k < |bin'| ensures Hooked(next', prev', bin', k) {
      if k < at {
        assert Hooked(next, prev, bin, k);
      } else if k > at {
        assert Hooked(next, prev, bin, k - 1);
      }
    }
  }

  /** Puts `node` behind every node that is not larger than it, as `add_node` does. */
  method AddNode(header: Headers, next0: Words, prev0: Words, head: Ptr, node: Ptr, ghost bin: seq<Ptr>)
    returns (head': Ptr, next: Words, prev: Words, ghost at: nat)
    requires BinLinked(next0, prev0, head, bin) && node != NULL && node !in bin
    requires node in header && Known(header, bin)
    ensures at <= |bin| && BinLinked(next, prev, head', Inserted(bin, at, node))
    ensures SameElsewhere(next0, prev0, next, prev, bin, node)
    ensures forall i | 0 <= i < at :: header[bin[i]].size <= header[node].size
    ensures at < |bin| ==> header[node].size < header[bin[at]].size
  {
    hide BinLinked;
    LinkedAt(next0, prev0, head, bin, 0);
    next, prev, head', at := next0[node := NULL], prev0[node := NULL], head, 0;
    if head == NULL {
      head' := node;
      InsertLinked(next0, prev0, prev, head, bin, 0, node);
      return;
    }
    var current, previous := head, NULL;
    while current != NULL && header[current].size <= header[node].size
      invariant at <= |bin| && current == NodeAt(bin, at) && previous == NodeBefore(bin, at)
      invariant current != NULL <==> at < |bin|
      invariant current != NULL ==> current in header
      invariant forall j | 0 <= j < at :: header[bin[j]].size <= header[node].size
      decreases |bin| - at
    {
      LinkedAt(next0, prev0, head, bin, at);
      LinkedAt(next0, prev0, head, bin, at + 1);
      previous, current, at := current, next[current], at + 1;
    }
    if at > 0 { LinkedAt(next0, prev0, head, bin, at - 1); }
    LinkedAt(next0, prev0, head, bin, at);
    if current == NULL {
      next := next[previous := node];
      prev := prev[node := previous];
    } else if previous != NULL {
      next := next[node := current][previous := node];
      prev := prev[node := previous][current := node];
    } else {
      next := next[node := head'];
      prev := prev[head' := node];
      head' := node;
    }
    assert next == InsertedNext(next0, bin, at, node);
    InsertLinked(next0, prev0, prev, head, bin, at, node);
  }

  lemma RemoveLinked(next: Words, prev: Words, head: Ptr, bin: seq<Ptr>, at: nat)
    requires BinLinked(next, prev, head, bin) && at < |bin|
    ensures at == 0 ==> BinLinked(next, prev, NodeAt(bin, 1), Cut(bin, 0))
    ensures 0 < at ==>
      BinLinked(next[bin[at - 1] := NodeAt(bin, at + 1)],
                if at + 1 < |bin| then prev[bin[at + 1] := bin[at - 1]] else prev, head, Cut(bin, at))
  {
    var bin' := Cut(bin, at);
    var next' := if at == 0 then next else next[bin[at - 1] := NodeAt(bin, at + 1)];
    var prev' := if 0 < at && at + 1 < |bin| then prev[bin[at + 1] := bin[at - 1]] else prev;
    assert forall k | 0 <= k < |bin'| :: bin'[k] == bin[if k < at then k else k + 1];
    forall k | 0 <= k < |bin'| ensures Hooked(next', prev', bin', k) {
      assert Hooked(next, prev, bin, if k < at then k else k + 1);
      if k + 1 == at { assert bin'[k] == bin[at - 1]; }
    }
  }

  /** Unlinks `node`, if it is in the bin. The node behind a removed head keeps its stale link back. */
  method RemoveNode(next0: Words, prev0: Words, head: Ptr, node: Ptr, ghost bin: seq<Ptr>)
    returns (head': Ptr, next: Words, prev: Words, ghost at: nat)
    requires BinLinked(next0, prev0, head, bin)
    ensures at <= |bin| && node !in bin[..at] && (at < |bin| ==> bin[at] == node)
    ensures BinLinked(next, prev, head', if at < |bin| then Cut(bin, at) else bin)
    ensures SameElsewhere(next0, prev0, next, prev, bin, node)
    ensures node in next0 && node in prev0 ==> node in next && node in prev
  {
    hide BinLinked;
    next, prev, head', at := next0, prev0, head, 0;
    LinkedAt(next0, prev0, head, bin, 0);
    LinkedAt(next0, prev0, head, bin, 1);
    if head == NULL {
      return;
    }
    if head == node {
      RemoveLinked(next0, prev0, head, bin, 0);
      head' := next[head];
      return;
    }
    var temp := next[head];
    at := 1;
    while temp != NULL && temp != node
      invariant 1 <= at <= |bin| && temp == NodeAt(bin, at) && node !in bin[..at]
      invariant temp != NULL <==> at < |bin|
      decreases |bin| - at
    {
      LinkedAt(next0, prev0, head, bin, at);
      LinkedAt(next0, prev0, head, bin, at + 1);
      temp, at := next[temp], at + 1;
    }
    if temp == NULL {
      return;
    }
    LinkedAt(next0, prev0, head, bin, at);
    LinkedAt(next0, prev0, head, bin, at + 1);
    RemoveLinked(next0, prev0, head, bin, at);
    if next[temp] == NULL {
      next := next[prev[temp] := NULL];
    } else {
      next := next[prev[temp] := next[temp]];
      prev := prev[next0[temp] := prev[temp]];
    }
  }

  /** The first node of the bin that is large enough. */
  method GetBestFit(header: Headers, next: Words, prev: Words, head: Ptr, size: nat, ghost bin: seq<Ptr>)
    returns (r: Ptr, ghost at: nat)
    requires BinLinked(next, prev, head, bin) && Known(header, bin)
    ensures at <= |bin| && forall i | 0 <= i < at :: header[bin[i]].size < size
    ensures r == NodeAt(bin, at) && (r != NULL <==> at < |bin|)
    ensures r != NULL ==> size <= header[r].size
  {
    hide BinLinked;
    r, at := head, 0;
    LinkedAt(next, prev, head, bin, 0);
    while r != NULL && header[r].size < size
      invariant at <= |bin| && r == NodeAt(bin, at) && (r != NULL <==> at < |bin|)
      invariant forall j | 0 <= j < at :: header[bin[j]].size < size
      decreases |bin| - at
    {
      LinkedAt(next, prev, head, bin, at);
      LinkedAt(next, prev, head, bin, at + 1);
      r, at := next[r], at + 1;
    }
  }

  // ---------------------------------------------------------------- all bins

  ghost predicate BinHolds(bin: seq<nat>, k: nat, holes: map<nat, nat>) {
    && (forall i | 0 <= i < |bin| :: bin[i] in holes && BinIndex(holes[bin[i]]) == k)
    && (forall i, j | 0 <= i < j < |bin| :: bin[i] != bin[j] && holes[bin[i]] <= holes[bin[j]])
  }

  /** Each hole is filed once, in the bin of its size, and each bin is sorted. */
  ghost predicate BinsHold(bins: seq<seq<nat>>, holes: map<nat, nat>) {
    && |bins| == BIN_COUNT
    && (forall k | 0 <= k < BIN_COUNT :: BinHolds(bins[k], k, holes))
    && (forall a | a in holes :: a in bins[BinIndex(holes[a])])
  }

  /** The heads of the bins, and the two link words of every node. */
  datatype FreeLists = FreeLists(heads: seq<Ptr>, next: Words, prev: Words)

  /** The heads and link words spell out the bins. */
  ghost predicate BinsLinked(free: FreeLists, bins: seq<seq<nat>>) {
    && |free.heads| == |bins| == BIN_COUNT
    && forall k | 0 <= k < BIN_COUNT :: BinLinked(free.next, free.prev, free.heads[k], bins[k])
  }

  lemma BinLinkedAt(free: FreeLists, bins: seq<seq<nat>>, k: nat)
    requires BinsLinked(free, bins) && k < BIN_COUNT
    ensures |free.heads| == |bins| == BIN_COUNT && BinLinked(free.next, free.prev, free.heads[k], bins[k])
  {
  }

  lemma FiledOnce(bins: seq<seq<nat>>, holes: map<nat, nat>, node: nat)
    requires BinsHold(bins, holes) && node in holes
    ensures |bins| == BIN_COUNT && BinIndex(holes[node]) < BIN_COUNT && node in bins[BinIndex(holes[node])]
  {
  }

  lemma NotFiled(bins: seq<seq<nat>>, holes: map<nat, nat>, k: nat, node: nat)
    requires BinsHold(bins, holes) && node !in holes && k < BIN_COUNT
    ensures |bins| == BIN_COUNT && node !in bins[k]
  {
    assert BinHolds(bins[k], k, holes);
  }

  lemma NoBins()
    ensures BinsLinked(FreeLists(seq(BIN_COUNT, _ => NULL), map[], map[]), seq(BIN_COUNT, _ => []))
    ensures BinsHold(seq(BIN_COUNT, _ => []), map[])
  {
  }

  lemma LinkedElsewhere(next: Words, prev: Words, next': Words, prev': Words, head: Ptr, bin: seq<Ptr>,
                        other: seq<Ptr>, node: Ptr)
    requires BinLinked(next, prev, head, bin) && SameElsewhere(next, prev, next', prev', other, node)
    requires forall p | p in bin :: p !in other && p != node
    ensures BinLinked(next', prev', head, bin)
  {
    forall k | 0 <= k < |bin| ensures Hooked(next', prev', bin, k) {
      assert Hooked(next, prev, bin, k) && bin[k] in bin;
    }
  }

  /** Rewriting one bin leaves the others standing: no node is in two bins. */
  lemma BinRewritten(free: FreeLists, next': Words, prev': Words, bins: seq<seq<nat>>, holes: map<nat, nat>, k: nat,
                     head': Ptr, bin': seq<Ptr>, node: Ptr)
    requires BinsLinked(free, bins) && BinsHold(bins, holes) && k < BIN_COUNT
    requires SameElsewhere(free.next, free.prev, next', prev', bins[k], node) && BinLinked(next', prev', head', bin')
    requires node in holes ==> node in bins[k]
    ensures BinsLinked(FreeLists(free.heads[k := head'], next', prev'), bins[k := bin'])
  {
    hide BinLinked, SameElsewhere, BinIndex;
    forall n | 0 <= n < BIN_COUNT && n != k ensures BinLinked(next', prev', free.heads[n], bins[n]) {
      assert BinHolds(bins[n], n, holes) && BinHolds(bins[k], k, holes);
      forall p | p in bins[n] ensures p !in bins[k] && p != node {
        var i :| 0 <= i < |bins[n]| && bins[n][i] == p;
      }
      LinkedElsewhere(free.next, free.prev, next', prev', free.heads[n], bins[n], bins[k], node);
    }
  }

  /** The words of a block that is no hole belong to no bin. */
  lemma OutsideBins(free: FreeLists, bins: seq<seq<nat>>, holes: map<nat, nat>, node: Ptr)
    requires BinsLinked(free, bins) && BinsHold(bins, holes) && node !in holes
    ensures BinsLinked(free.(next := free.next[node := NULL], prev := free.prev[node := NULL]), bins)
  {
    hide BinLinked, BinIndex;
    var next', prev' := free.next[node := NULL], free.prev[node := NULL];
    forall n | 0 <= n < BIN_COUNT ensures BinLinked(next', prev', free.heads[n], bins[n]) {
      assert BinHolds(bins[n], n, holes);
      LinkedElsewhere(free.next, free.prev, next', prev', free.heads[n], bins[n], [], node);
    }
  }

  lemma BinKnown(header: Headers, bins: seq<seq<nat>>, holes: map<nat, nat>, k: nat)
    requires BinsHold(bins, holes) && HeadersHold(header, holes) && k < BIN_COUNT
    ensures Known(header, bins[k]) && forall i | 0 <= i < |bins[k]| :: header[bins[k][i]].size == holes[bins[k][i]]
  {
    assert BinHolds(bins[k], k, holes);
  }

  /** The sizes read from the headers are the sizes of the holes. */
  ghost predicate HeadersHold(header: Headers, holes: map<nat, nat>) {
    forall a | a in holes :: a in header && header[a] == Header(true, holes[a])
  }

  lemma InsertIntoBin(bin: seq<nat>, k: nat, holes: map<nat, nat>, node: nat, size: nat, at: nat)
    returns (r: seq<nat>)
    requires BinHolds(bin, k, holes) && node !in holes && BinIndex(size) == k && at <= |bin|
    requires forall i | 0 <= i < at :: holes[bin[i]] <= size
    requires at < |bin| ==> size < holes[bin[at]]
    ensures r == bin[..at] + [node] + bin[at..]
    ensures BinHolds(r, k, holes[node := size])
  {
    hide BinIndex;
    r := bin[..at] + [node] + bin[at..];
    var holes' := holes[node := size];
    forall i | 0 <= i < |r| ensures r[i] in holes' && BinIndex(holes'[r[i]]) == k {
      assert r[i] == node || r[i] in bin;
    }
    forall i, j | 0 <= i < j < |r| ensures r[i] != r[j] && holes'[r[i]] <= holes'[r[j]] {
      var x := if i < at then i else i - 1;
      var y := if j < at then j else j - 1;
      assert i != at ==> r[i] == bin[x];
      assert j != at ==> r[j] == bin[y];
      if i == at { assert holes[bin[at]] <= holes[bin[y]]; }
    }
  }

  lemma InsertMembers(bin: seq<nat>, node: nat, at: nat, a: nat)
    requires at <= |bin|
    ensures a in bin[..at] + [node] + bin[at..] <==> a in bin || a == node
  {
    assert bin == bin[..at] + bin[at..];
  }

  lemma RemoveFromBin(bin: seq<nat>, k: nat, holes: map<nat, nat>, node: nat, at: nat)
    returns (r: seq<nat>)
    requires BinHolds(bin, k, holes) && at < |bin| && bin[at] == node
    ensures r == bin[..at] + bin[at + 1..]
    ensures BinHolds(r, k, holes - {node})
    ensures forall a :: a in r <==> a in bin && a != node
  {
    hide BinIndex;
    r := bin[..at] + bin[at + 1..];
    assert forall i | 0 <= i < |r| :: r[i] == if i < at then bin[i] else bin[i + 1];
    assert bin == bin[..at] + [node] + bin[at + 1..];
  }

  /** A bin that does not file `node` does not notice changes to it. */
  lemma OtherBin(bin: seq<nat>, k: nat, holes: map<nat, nat>, holes': map<nat, nat>, node: nat)
    requires BinHolds(bin, k, holes) && node !in bin
    requires forall a | a in holes && a != node :: a in holes' && holes'[a] == holes[a]
    ensures BinHolds(bin, k, holes')
  {
  }

  lemma FileHole(bins: seq<seq<nat>>, holes: map<nat, nat>, node: nat, size: nat, k: nat, at: nat)
    requires BinsHold(bins, holes) && node !in holes
    requires k == BinIndex(size) && at <= |bins[k]|
    requires forall i | 0 <= i < at :: holes[bins[k][i]] <= size
    requires at < |bins[k]| ==> size < holes[bins[k][at]]
    ensures BinsHold(bins[k := bins[k][..at] + [node] + bins[k][at..]], holes[node := size])
  {
    hide BinIndex;
    var r := InsertIntoBin(bins[k], k, holes, node, size, at);
    forall a ensures a in r <==> a in bins[k] || a == node {
      InsertMembers(bins[k], node, at, a);
    }
    forall n | 0 <= n < BIN_COUNT && n != k ensures BinHolds(bins[n], n, holes[node := size]) {
      OtherBin(bins[n], n, holes, holes[node := size], node);
    }
  }

  lemma UnfileHole(bins: seq<seq<nat>>, holes: map<nat, nat>, node: nat, k: nat, at: nat)
    requires BinsHold(bins, holes) && node in holes
    requires k == BinIndex(holes[node]) && at < |bins[k]| && bins[k][at] == node
    ensures BinsHold(bins[k := bins[k][..at] + bins[k][at + 1..]], holes - {node})
  {
    hide BinIndex;
    var r := RemoveFromBin(bins[k], k, holes, node, at);
    forall n | 0 <= n < BIN_COUNT && n != k ensures BinHolds(bins[n], n, holes - {node}) {
      assert BinHolds(bins[n], n, holes);
      OtherBin(bins[n], n, holes, holes - {node}, node);
    }
  }

  /** No hole that fits can be filed below the request's own bin. */
  lemma FitsAreAbove(bins: seq<seq<nat>>, holes: map<nat, nat>, size: nat, a: nat)
    requires BinsHold(bins, holes) && a in holes && size <= holes[a] < SIZE_LIMIT
    ensures BinIndex(size) <= BinIndex(holes[a]) < MAX_BIN_INDEX
    ensures a in bins[BinIndex(holes[a])]
  {
    BinIndexMonotone(size, holes[a]);
    BinIndexUsable(holes[a]);
  }

  /** The first fit of the first bin with a fit is minimal over all bins. */
  lemma FirstFitIsBest(bins: seq<seq<nat>>, holes: map<nat, nat>, size: nat, k: nat, at: nat, a: nat)
    requires BinsHold(bins, holes)
    requires BinIndex(size) <= k < MAX_BIN_INDEX && at < |bins[k]|
    requires forall n, i | BinIndex(size) <= n < k && 0 <= i < |bins[n]| :: holes[bins[n][i]] < size
    requires forall i | 0 <= i < at :: holes[bins[k][i]] < size
    requires a in holes && size <= holes[a] < SIZE_LIMIT
    ensures holes[bins[k][at]] <= holes[a]
  {
    FitsAreAbove(bins, holes, size, a);
    var n := BinIndex(holes[a]);
    var i :| 0 <= i < |bins[n]| && bins[n][i] == a;
    if n == k {
      assert BinHolds(bins[k], k, holes);
    } else {
      assert n > k && BinHolds(bins[k], k, holes);
      if holes[a] < holes[bins[k][at]] {
        BinIndexMonotone(holes[a], holes[bins[k][at]]);
      }
    }
  }

  /**
   Looks through the bins upwards from the request's own.  It fails only if no hole of
   the heap is large enough, and otherwise finds one that no sufficient hole undercuts.
   */
  method Search(header: Headers, free: FreeLists, request: nat, ghost bins: seq<seq<nat>>, ghost holes: map<nat, nat>)
    returns (found: Ptr, k: nat)
    requires BinsHold(bins, holes) && HeadersHold(header, holes) && BinsLinked(free, bins)
    requires forall a | a in holes :: holes[a] < SIZE_LIMIT
    ensures found == NULL <==> forall a | a in holes :: holes[a] < request
    ensures found != NULL ==> found in holes && k == BinIndex(holes[found]) && request <= holes[found]
    ensures found != NULL ==> forall a | a in holes && request <= holes[a] :: holes[found] <= holes[a]
  {
    hide BinLinked, BinIndex, HeadersHold;
    k := GetBinIndex(request);
    ghost var k0 := k;
    while k < MAX_BIN_INDEX
      invariant k0 <= k <= MAX_BIN_INDEX
      invariant forall n, i | k0 <= n < k && 0 <= i < |bins[n]| :: holes[bins[n][i]] < request
    {
      assert BinHolds(bins[k], k, holes);
      BinKnown(header, bins, holes, k);
      ghost var at;
      found, at := GetBestFit(header, free.next, free.prev, free.heads[k], request, bins[k]);
      if found != NULL {
        forall a | a in holes && request <= holes[a] ensures holes[found] <= holes[a] {
          FirstFitIsBest(bins, holes, request, k, at, a);
        }
        return found, k;
      }
      k := k + 1;
    }
    forall a | a in holes ensures holes[a] < request {
      if request <= holes[a] { FitsAreAbove(bins, holes, request, a); }
    }
    return NULL, k;
  }
}
