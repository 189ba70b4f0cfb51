/**
 The chained hash table and its iterator.

 The chains are linked lists in memory; `chains` spells them out as sequences of entries, newest
 first, and `Flat` lists all entries in the order in which an iterator meets them.  The table
 refines a finite map from keys to values, where keys count as equal when `eqFn` says so.
 */
module HashTable {
  import opened Prelude
  import opened Links

  type Key = nat
  type Value = nat

  datatype Entry = Entry(key: Key, value: Value, hash: bv32)

  type Chains = seq<seq<Entry>>

  const UINT32: nat := 0x1_0000_0000

  const PRIMES: seq<nat> := [
    53, 97, 193, 389,
    769, 1543, 3079, 6151,
    12289, 24593, 49157, 98317,
    196613, 393241, 786433, 1572869,
    3145739, 6291469, 12582917, 25165843,
    50331653, 100663319, 201326611, 402653189,
    805306457, 1610612741]

  const LOAD_LIMITS: seq<nat> := [
    35, 64, 126, 253,
    500, 1003, 2002, 3999,
    7988, 15986, 31953, 63907,
    127799, 255607, 511182, 1022365,
    2044731, 4089455, 8178897, 16357798,
    32715575, 65431158, 130862298, 261724573,
    523449198, 1046898282]

  const LAST_PRIME: nat := 25

  /** The table sizes in use, and how many entries each of them admits. */
  function Prime(i: nat): nat
    requires i <= LAST_PRIME
  {
    PRIMES[i]
  }

  function LoadLimit(i: nat): nat
    requires i <= LAST_PRIME
  {
    LOAD_LIMITS[i]
  }

  /** Each size admits more entries than the one before, and fewer than it has chains. */
  lemma LimitsFit(i: nat)
    requires i <= LAST_PRIME
    ensures 0 < LoadLimit(i) < Prime(i) < UINT32
    ensures i < LAST_PRIME ==> LoadLimit(i) < LoadLimit(i + 1)
  {
  }

  /** The sizes lie above three times a power of two each, and a table may be filled to 65 percent, rounded up. */
  lemma SizesAre(i: nat)
    requires i <= 25
    ensures Prime(i) == 48 * Pow2(i)
      + [5, 1, 1, 5, 1, 7, 7, 7, 1, 17, 5, 13, 5, 25, 1, 5, 11, 13, 5, 19, 5, 23, 19, 5, 89, 5][i]
    ensures 65 * Prime(i) <= 100 * LoadLimit(i) < 65 * Prime(i) + 100
  {
    PowersAre(i);
    LoadIs(i);
    PrimesAre(i);
  }

  lemma LoadIs(i: nat)
    requires i <= 25
    ensures 65 * Prime(i) <= 100 * LoadLimit(i) < 65 * Prime(i) + 100
  {
  }

  lemma PrimesAre(i: nat)
    requires i <= 25
    ensures Prime(i) == 48 * [1, 2, 4, 8, 16, 32, 64, 128, 256, 512, 1024, 2048, 4096, 8192, 16384, 32768, 65536,
      131072, 262144, 524288, 1048576, 2097152, 4194304, 8388608, 16777216, 33554432][i]
      + [5, 1, 1, 5, 1, 7, 7, 7, 1, 17, 5, 13, 5, 25, 1, 5, 11, 13, 5, 19, 5, 23, 19, 5, 89, 5][i]
  {
  }

  lemma PowersAre(i: nat)
    requires i <= 25
    ensures Pow2(i) == [1, 2, 4, 8, 16, 32, 64, 128, 256, 512, 1024, 2048, 4096, 8192, 16384, 32768, 65536, 131072,
      262144, 524288, 1048576, 2097152, 4194304, 8388608, 16777216, 33554432][i]
  {
    if i > 0 { PowersAre(i - 1); }
  }

  /** The extra mixing applied to every hash value. */
  function Spread(h: bv32): bv32 {
    var i := h + !(h << 9);
    var j := i ^ ((i >> 14) | (i << 18));
    var k := j + (j << 4);
    k ^ ((k >> 10) | (k << 22))
  }

  lemma SpreadValues()
    ensures Spread(0) == 0 && Spread(1) == 0xfc5d_cee7 && Spread(0xffff_ffff) == 0xf0d9_ffd6
    ensures Spread(0x1234_5678) == 0xf778_ba7b
  {
  }

  function IndexFor(length: nat, hash: bv32): (i: nat)
    requires length > 0
    ensures i < length
  {
    hash as int % length
  }

  // ---------------------------------------------------------------- all entries of a table

  function Flat(t: Chains): seq<Entry> {
    if t == [] then [] else t[0] + Flat(t[1..])
  }

  lemma {:induction false} FlatConcat(s: Chains, t: Chains)
    ensures Flat(s + t) == Flat(s) + Flat(t)
  {
    if s == [] {
      assert s + t == t;
    } else {
      assert (s + t)[1..] == s[1..] + t;
      FlatConcat(s[1..], t);
    }
  }

  lemma FlatSnoc(t: Chains, i: nat)
    requires i < |t|
    ensures Flat(t[..i + 1]) == Flat(t[..i]) + t[i]
  {
    assert t[..i + 1] == t[..i] + [t[i]];
    FlatConcat(t[..i], [t[i]]);
    assert Flat([t[i]]) == t[i] + Flat([]);
  }

  /** The entries before chain `i`, in it, and behind it. */
  lemma FlatSplit(t: Chains, i: nat)
    requires i < |t|
    ensures Flat(t) == Flat(t[..i]) + t[i] + Flat(t[i + 1..])
  {
    assert t == t[..i] + t[i..];
    FlatConcat(t[..i], t[i..]);
  }

  lemma FlatUpdate(t: Chains, i: nat, chain: seq<Entry>)
    requires i < |t|
    ensures Flat(t[i := chain]) == Flat(t[..i]) + chain + Flat(t[i + 1..])
  {
    FlatSplit(t[i := chain], i);
    assert t[i := chain][..i] == t[..i] && t[i := chain][i + 1..] == t[i + 1..];
  }

  lemma {:induction false} FlatEmpty(t: Chains)
    requires forall i | 0 <= i < |t| :: t[i] == []
    ensures Flat(t) == []
  {
    if t == [] {
    } else {
      FlatEmpty(t[1..]);
    }
  }

  lemma {:induction false} FlatMember(t: Chains, e: Entry) returns (i: nat)
    requires e in Flat(t)
    ensures i < |t| && e in t[i]
  {
    if e in t[0] {
      i := 0;
    } else {
      i := FlatMember(t[1..], e);
      i := i + 1;
    }
  }

  lemma ChainMember(t: Chains, i: nat, e: Entry)
    requires i < |t| && e in t[i]
    ensures e in Flat(t)
  {
    FlatSplit(t, i);
  }

  /** Every entry sits in the chain that its hash selects. */
  ghost predicate Placed(t: Chains) {
    forall i, e | 0 <= i < |t| && e in t[i] :: IndexFor(|t|, e.hash) == i
  }

  /** Putting an entry in front of the chain of its hash. */
  function Pushed(t: Chains, e: Entry): Chains
    requires |t| > 0
  {
    var i := IndexFor(|t|, e.hash);
    t[i := [e] + t[i]]
  }

  lemma PushKeeps(t: Chains, e: Entry)
    requires |t| > 0 && Placed(t)
    ensures Placed(Pushed(t, e)) && multiset(Flat(Pushed(t, e))) == multiset(Flat(t)) + multiset{e}
  {
    var i := IndexFor(|t|, e.hash);
    FlatSplit(t, i);
    FlatUpdate(t, i, [e] + t[i]);
  }

  // ---------------------------------------------------------------- chains in memory

  type Nodes = map<Ptr, Entry>

  ghost predicate Apart(lists: seq<seq<Ptr>>) {
    forall i, j, p | 0 <= i < |lists| && 0 <= j < |lists| && i != j && p in lists[i] :: p !in lists[j]
  }

  /** The words spell out the chains; `lists` are their nodes. */
  ghost predicate Linked(heads: seq<Ptr>, next: Words, node: Nodes, lists: seq<seq<Ptr>>, t: Chains) {
    && |heads| == |lists| == |t|
    && (forall i | 0 <= i < |t| :: Strung(next, node, heads[i], lists[i], t[i]))
    && Apart(lists)
  }

  ghost predicate Unused(lists: seq<seq<Ptr>>, p: Ptr) {
    forall i | 0 <= i < |lists| :: p !in lists[i]
  }

  /** Linking a node in front of chain `i`. */
  lemma LinkedPush(heads: seq<Ptr>, next: Words, node: Nodes, lists: seq<seq<Ptr>>, t: Chains, i: nat, p: Ptr, e: Entry)
    requires Linked(heads, next, node, lists, t) && i < |t| && p != NULL && Unused(lists, p)
    ensures Linked(heads[i := p], next[p := heads[i]], node[p := e], lists[i := [p] + lists[i]], t[i := [e] + t[i]])
  {
    hide Strung;
    var next', node' := next[p := heads[i]], node[p := e];
    var lists' := lists[i := [p] + lists[i]];
    StrungPush(next, node, heads[i], lists[i], t[i], p, e);
    forall j | 0 <= j < |t| && j != i ensures Strung(next', node', heads[j], lists[j], t[j]) {
      StrungKnown(next, node, heads[j], lists[j], t[j]);
      StrungElsewhere(next, node, next', node', heads[j], lists[j], t[j]);
    }
  }

  lemma StrungKnown(next: Words, node: Nodes, head: Ptr, ps: seq<Ptr>, es: seq<Entry>)
    requires Strung(next, node, head, ps, es)
    ensures forall p | p in ps :: p in next && p in node
  {
    forall p | p in ps ensures p in next && p in node {
      var k :| 0 <= k < |ps| && ps[k] == p;
      assert Knot(next, node, ps, es, k);
    }
  }

  /** Lists keep standing for the same chains when only other nodes are written. */
  lemma LinkedElsewhere(heads: seq<Ptr>, next: Words, node: Nodes, next': Words, node': Nodes,
                        lists: seq<seq<Ptr>>, t: Chains, p: Ptr)
    requires Linked(heads, next, node, lists, t) && Unused(lists, p)
    requires forall q | q != p :: (q in next ==> q in next' && next'[q] == next[q])
    requires forall q | q != p :: (q in node ==> q in node' && node'[q] == node[q])
    ensures Linked(heads, next', node', lists, t)
  {
    hide Strung;
    forall j | 0 <= j < |t| ensures Strung(next', node', heads[j], lists[j], t[j]) {
      StrungKnown(next, node, heads[j], lists[j], t[j]);
      StrungElsewhere(next, node, next', node', heads[j], lists[j], t[j]);
    }
  }

  /** Dropping the first node of chain `i`. */
  lemma LinkedPop(heads: seq<Ptr>, next: Words, node: Nodes, lists: seq<seq<Ptr>>, t: Chains, i: nat)
    requires Linked(heads, next, node, lists, t) && i < |t| && heads[i] != NULL
    ensures lists[i] != [] && t[i] != [] && heads[i] == lists[i][0] && heads[i] in next && heads[i] in node
    ensures node[heads[i]] == t[i][0]
    ensures Linked(heads[i := next[heads[i]]], next, node, lists[i := lists[i][1..]], t[i := t[i][1..]])
    ensures Unused(lists[i := lists[i][1..]], heads[i])
  {
    StrungPop(next, node, heads[i], lists[i], t[i]);
  }

  // ---------------------------------------------------------------- the finite map behind a table

  ghost predicate Transitive(eq: (Key, Key) -> bool) {
    forall a, b, c :: eq(a, b) && eq(b, c) ==> eq(a, c)
  }

  /** `eq` is an equivalence, and equal keys hash alike. */
  ghost predicate Lawful(hash: Key -> bv32, eq: (Key, Key) -> bool) {
    && (forall a :: eq(a, a))
    && (forall a, b :: eq(a, b) ==> eq(b, a) && hash(a) == hash(b))
    && Transitive(eq)
  }

  /** The entry for `k`, if there is one. */
  ghost predicate Holds(bag: multiset<Entry>, eq: (Key, Key) -> bool, k: Key, e: Entry) {
    e in bag && eq(k, e.key)
  }

  ghost predicate Bound(bag: multiset<Entry>, eq: (Key, Key) -> bool, k: Key) {
    exists e :: Holds(bag, eq, k, e)
  }

  ghost predicate HasKey(bag: multiset<Entry>, k: Key) {
    exists e :: e in bag && e.key == k
  }

  /** The entries are the bindings of `d`, one entry for each key up to `eq`. */
  ghost predicate Represents(bag: multiset<Entry>, eq: (Key, Key) -> bool, d: map<Key, Value>) {
    && (forall e | e in bag :: bag[e] == 1 && e.key in d && d[e.key] == e.value)
    && (forall k | k in d :: HasKey(bag, k))
    && (forall e, f | e in bag && f in bag && eq(e.key, f.key) :: e == f)
  }

  /** `d` without the binding for `k`. */
  ghost function Without(d: map<Key, Value>, eq: (Key, Key) -> bool, k: Key): map<Key, Value> {
    map x | x in d && !eq(k, x) :: d[x]
  }

  ghost predicate NewTo(eq: (Key, Key) -> bool, e: Entry, f: Entry) {
    f != e && f.key != e.key && !eq(e.key, f.key) && !eq(f.key, e.key)
  }

  lemma InsertRepresents(bag: multiset<Entry>, eq: (Key, Key) -> bool, hash: Key -> bv32, d: map<Key, Value>, e: Entry)
    requires Lawful(hash, eq) && Represents(bag, eq, d) && !Bound(bag, eq, e.key)
    ensures Represents(bag + multiset{e}, eq, d[e.key := e.value])
  {
    hide Represents, Transitive;
    forall f | f in bag ensures NewTo(eq, e, f) {
      assert !Holds(bag, eq, e.key, f);
    }
    AddRepresents(bag, eq, d, e);
  }

  lemma AddRepresents(bag: multiset<Entry>, eq: (Key, Key) -> bool, d: map<Key, Value>, e: Entry)
    requires Represents(bag, eq, d) && forall f | f in bag :: NewTo(eq, e, f)
    ensures Represents(bag + multiset{e}, eq, d[e.key := e.value])
  {
    var bag', d' := bag + multiset{e}, d[e.key := e.value];
    assert forall f | f in bag' :: f == e || f in bag;
    forall f | f in bag' ensures bag'[f] == 1 && f.key in d' && d'[f.key] == f.value {
      assert e !in bag;
      if f != e { assert NewTo(eq, e, f); }
    }
    forall k | k in d' ensures HasKey(bag', k) {
      if k == e.key { assert e in bag'; } else {
        assert HasKey(bag, k);
        var f :| f in bag && f.key == k;
        assert f in bag';
      }
    }
  }

  lemma RemoveRepresents(bag: multiset<Entry>, eq: (Key, Key) -> bool, hash: Key -> bv32, d: map<Key, Value>, k: Key,
                         e: Entry)
    requires Lawful(hash, eq) && Represents(bag, eq, d) && Holds(bag, eq, k, e)
    ensures Represents(bag - multiset{e}, eq, Without(d, eq, k))
    ensures !Bound(bag - multiset{e}, eq, k)
  {
    var bag' := bag - multiset{e};
    forall f | f in bag' ensures f != e && f in bag && !eq(k, f.key) {
      assert eq(e.key, k) && (eq(k, f.key) ==> eq(e.key, f.key));
    }
    forall x | x in Without(d, eq, k) ensures HasKey(bag', x) {
      assert HasKey(bag, x);
      var f :| f in bag && f.key == x;
      assert f in bag';
    }
  }

  /** No other key of the map is equal to that of an entry. */
  lemma SoleKey(bag: multiset<Entry>, eq: (Key, Key) -> bool, hash: Key -> bv32, d: map<Key, Value>, e: Entry)
    requires Lawful(hash, eq) && Represents(bag, eq, d) && e in bag
    ensures Without(d, eq, e.key) == d - {e.key}
  {
    forall x | x in d && eq(e.key, x) ensures x == e.key {
      assert HasKey(bag, x);
      var f :| f in bag && f.key == x;
      assert f == e;
    }
  }

  lemma ChangeRepresents(bag: multiset<Entry>, eq: (Key, Key) -> bool, hash: Key -> bv32, d: map<Key, Value>, e: Entry,
                         v: Value)
    requires Lawful(hash, eq) && Represents(bag, eq, d) && e in bag
    ensures Represents(bag - multiset{e} + multiset{e.(value := v)}, eq, d[e.key := v])
  {
    hide Represents, Without, Bound;
    assert Holds(bag, eq, e.key, e);
    RemoveRepresents(bag, eq, hash, d, e.key, e);
    SoleKey(bag, eq, hash, d, e);
    InsertRepresents(bag - multiset{e}, eq, hash, d - {e.key}, e.(value := v));
    assert (d - {e.key})[e.key := v] == d[e.key := v];
  }

  /** What is absent from the bag is absent from the map, and conversely. */
  lemma BoundIs(bag: multiset<Entry>, eq: (Key, Key) -> bool, d: map<Key, Value>, k: Key)
    requires Represents(bag, eq, d)
    ensures Bound(bag, eq, k) <==> exists x :: x in d && eq(k, x)
    ensures !Bound(bag, eq, k) ==> Without(d, eq, k) == d
  {
    if e :| Holds(bag, eq, k, e) { assert e.key in d; }
    if x :| x in d && eq(k, x) {
      assert HasKey(bag, x);
      var e :| e in bag && e.key == x;
      assert Holds(bag, eq, k, e);
    }
  }

  lemma PopFlat(t: Chains, i: nat)
    requires i < |t| && t[i] != []
    ensures multiset(Flat(t[i := t[i][1..]])) + multiset{t[i][0]} == multiset(Flat(t))
  {
    hide Flat;
    FlatSplit(t, i);
    FlatUpdate(t, i, t[i][1..]);
    assert t[i] == [t[i][0]] + t[i][1..];
  }

  ghost predicate Separate(lists: seq<seq<Ptr>>, lists': seq<seq<Ptr>>) {
    forall i, p | 0 <= i < |lists| && p in lists[i] :: Unused(lists', p)
  }

  /** A table being emptied into another: nothing is lost, doubled or in both. */
  ghost predicate Moving(heads: seq<Ptr>, lists: seq<seq<Ptr>>, t: Chains, heads': seq<Ptr>, lists': seq<seq<Ptr>>,
                         t': Chains,
                         next: Words, node: Nodes, bag: multiset<Entry>)
  {
    && Linked(heads, next, node, lists, t) && Linked(heads', next, node, lists', t') && Separate(lists, lists')
    && |t'| > 0 && Placed(t') && multiset(Flat(t')) + multiset(Flat(t)) == bag
  }

  lemma SeparateMove(lists: seq<seq<Ptr>>, lists': seq<seq<Ptr>>, i: nat, j: nat)
    requires Separate(lists, lists') && i < |lists| && lists[i] != [] && j < |lists'|
    requires Unused(lists[i := lists[i][1..]], lists[i][0])
    ensures Separate(lists[i := lists[i][1..]], lists'[j := [lists[i][0]] + lists'[j]])
  {
    var lists1, lists1' := lists[i := lists[i][1..]], lists'[j := [lists[i][0]] + lists'[j]];
    forall k, p | 0 <= k < |lists1| && p in lists1[k] ensures Unused(lists1', p) {
      assert lists[i][0] !in lists1[k] && p in lists[k] && Unused(lists', p);
      forall m | 0 <= m < |lists1'| ensures p !in lists1'[m] { assert p !in lists'[m]; }
    }
  }

  /** One node moves from the front of chain `i` to the front of its chain in the other table. */
  lemma MoveNode(heads: seq<Ptr>, lists: seq<seq<Ptr>>, t: Chains, heads': seq<Ptr>, lists': seq<seq<Ptr>>, t': Chains,
                 next: Words, node: Nodes, i: nat, j: nat)
    requires Linked(heads, next, node, lists, t) && Linked(heads', next, node, lists', t') && Separate(lists, lists')
    requires i < |t| && heads[i] != NULL && j < |t'|
    ensures t[i] != [] && lists[i] != [] && heads[i] == lists[i][0] && heads[i] in next
    ensures heads[i] in node && node[heads[i]] == t[i][0]
    ensures Linked(heads[i := next[heads[i]]], next[heads[i] := heads'[j]], node,
                   lists[i := lists[i][1..]], t[i := t[i][1..]])
    ensures Linked(heads'[j := heads[i]], next[heads[i] := heads'[j]], node,
                   lists'[j := [heads[i]] + lists'[j]], t'[j := [t[i][0]] + t'[j]])
    ensures Separate(lists[i := lists[i][1..]], lists'[j := [heads[i]] + lists'[j]])
  {
    hide Strung;
    var p, next1 := heads[i], next[heads[i] := heads'[j]];
    LinkedPop(heads, next, node, lists, t, i);
    SeparateMove(lists, lists', i, j);
    LinkedElsewhere(heads[i := next[p]], next, node, next1, node, lists[i := lists[i][1..]], t[i := t[i][1..]], p);
    assert p in lists[i];
    LinkedPush(heads', next, node, lists', t', j, p, t[i][0]);
    assert node[p := t[i][0]] == node;
  }

  lemma MoveStep(heads: seq<Ptr>, lists: seq<seq<Ptr>>, t: Chains, heads': seq<Ptr>, lists': seq<seq<Ptr>>, t': Chains,
                 next: Words, node: Nodes, bag: multiset<Entry>, i: nat)
    requires Moving(heads, lists, t, heads', lists', t', next, node, bag) && i < |heads| && heads[i] != NULL
    ensures |heads| == |lists| == |t| && |heads'| == |lists'| == |t'| > 0
    ensures t[i] != [] && lists[i] != [] && heads[i] in next && heads[i] in node
    ensures var p, e := heads[i], t[i][0];
      var j := IndexFor(|heads'|, node[p].hash);
      Moving(heads[i := next[p]], lists[i := lists[i][1..]], t[i := t[i][1..]],
             heads'[j := p], lists'[j := [p] + lists'[j]], t'[j := [e] + t'[j]], next[p := heads'[j]], node, bag)
  {
    hide Linked, Placed, Separate, Flat;
    LinkedSizes(heads, next, node, lists, t);
    LinkedSizes(heads', next, node, lists', t');
    LinkedPop(heads, next, node, lists, t, i);
    var j := IndexFor(|heads'|, node[heads[i]].hash);
    MoveNode(heads, lists, t, heads', lists', t', next, node, i, j);
    PopFlat(t, i);
    PushKeeps(t', t[i][0]);
  }

  lemma NothingLinked(n: nat, next: Words, node: Nodes)
    ensures Linked(seq(n, _ => NULL), next, node, seq(n, _ => []), seq(n, _ => []))
    ensures Placed(seq(n, _ => [])) && Flat(seq(n, _ => [])) == []
  {
    hide Strung, Flat;
    StrungNothing(next, node);
    var t: Chains := seq(n, _ => []);
    FlatEmpty(t);
  }

  lemma StrungNothing(next: Words, node: Nodes)
    ensures Strung(next, node, NULL, [], [])
  {
  }

  class Table {
    const hashFn: Key -> bv32
    const eqFn: (Key, Key) -> bool
    var heads: seq<Ptr>
    var next: Words
    var node: Nodes
    var entryCount: nat
    var loadLimit: nat
    var primeIndex: nat

    ghost var lists: seq<seq<Ptr>>
    ghost var chains: Chains

    /** The chains in memory are the chains, one for each slot of the table's size. */
    ghost predicate Shaped()
      reads this
    {
      && primeIndex <= LAST_PRIME
      && |chains| == Prime(primeIndex) && loadLimit == LoadLimit(primeIndex)
      && Linked(heads, next, node, lists, chains)
      && Placed(chains)
    }

    ghost predicate Valid()
      reads this
    {
      && Lawful(hashFn, eqFn)
      && Shaped()
      && (forall e | e in Flat(chains) :: e.hash == Spread(hashFn(e.key)))
      // the counter is 32 bits wide; it is exact until the last prime is reached
      && entryCount == |Flat(chains)| % UINT32
      && (primeIndex < LAST_PRIME ==> |Flat(chains)| <= loadLimit)
    }

    ghost function Bag(): multiset<Entry>
      reads this
    {
      multiset(Flat(chains))
    }

    constructor (hashFn: Key -> bv32, eqFn: (Key, Key) -> bool, primeIndex: nat)
      requires Lawful(hashFn, eqFn) && primeIndex <= LAST_PRIME
      ensures Valid() && Flat(chains) == [] && entryCount == 0
      ensures this.hashFn == hashFn && this.eqFn == eqFn && this.primeIndex == primeIndex
    {
      LimitsFit(primeIndex);
      this.hashFn, this.eqFn, this.primeIndex := hashFn, eqFn, primeIndex;
      entryCount := 0;
      loadLimit := LoadLimit(primeIndex);
      heads, next, node := seq(Prime(primeIndex), _ => NULL), map[], map[];
      lists, chains := seq(Prime(primeIndex), _ => []), seq(Prime(primeIndex), _ => []);
      new;
      NothingLinked(Prime(primeIndex), next, node);
    }

    /** The smallest listed prime above `minSize`; sizes beyond two to the thirtieth are refused. */
    static method Create(minSize: nat, hashFn: Key -> bv32, eqFn: (Key, Key) -> bool) returns (t: Table?)
      requires Lawful(hashFn, eqFn)
      ensures t == null <==> minSize > 0x4000_0000
      ensures t != null ==> fresh(t) && t.Valid() && Flat(t.chains) == [] && t.hashFn == hashFn && t.eqFn == eqFn
      ensures t != null ==> |t.heads| > minSize && forall i | 0 <= i < t.primeIndex :: Prime(i) <= minSize
    {
      if minSize > 0x4000_0000 { return null; }
      var i := 0;
      while Prime(i) <= minSize
        invariant i <= LAST_PRIME
        invariant forall j | 0 <= j < i :: Prime(j) <= minSize
        decreases LAST_PRIME - i
      {
        assert Prime(LAST_PRIME) > 0x4000_0000;
        i := i + 1;
      }
      t := new Table(hashFn, eqFn, i);
    }

    function DoHash(k: Key): bv32 {
      Spread(hashFn(k))
    }

    /** Empties chain `i`, node by node, into the other table. */
    method MoveChain(i: nat, table0: seq<Ptr>, ghost lists0: seq<seq<Ptr>>, ghost t0: Chains,
                     ghost bag: multiset<Entry>)
      returns (table: seq<Ptr>, ghost lists': seq<seq<Ptr>>, ghost t': Chains)
      requires i < |heads| == |chains| && Moving(heads, lists, chains, table0, lists0, t0, next, node, bag)
      modifies `heads, `next, `lists, `chains
      ensures Moving(heads, lists, chains, table, lists', t', next, node, bag) && |table| == |table0|
      ensures |heads| == old(|heads|) == |chains| && chains == old(chains)[i := []]
    {
      hide Moving;
      table, lists', t' := table0, lists0, t0;
      assert chains == chains[i := chains[i]];
      while heads[i] != NULL
        invariant i < |heads| == old(|heads|) == |chains| && |table| == |table0|
        invariant Moving(heads, lists, chains, table, lists', t', next, node, bag)
        invariant chains == old(chains)[i := chains[i]]
        decreases |chains[i]|
      {
        MoveStep(heads, lists, chains, table, lists', t', next, node, bag, i);
        var p := heads[i];
        var index := IndexFor(|table|, node[p].hash);
        heads := heads[i := next[p]];
        next := next[p := table[index]];
        table := table[index := p];
        lists' := lists'[index := [p] + lists'[index]];
        t' := t'[index := [chains[i][0]] + t'[index]];
        lists := lists[i := lists[i][1..]];
        chains := chains[i := chains[i][1..]];
      }
      MovedOut(heads, lists, chains, table, lists', t', next, node, bag, i);
    }

    /** Moves every node, chain by chain, to the front of its chain in a table of `size` slots. */
    method Rehash(size: nat) returns (table: seq<Ptr>, ghost lists': seq<seq<Ptr>>, ghost t': Chains)
      requires size > 0 && Linked(heads, next, node, lists, chains)
      modifies `heads, `next, `lists, `chains
      ensures Linked(table, next, node, lists', t') && |t'| == size && Placed(t')
      ensures multiset(Flat(t')) == old(Bag())
    {
      hide Linked, Placed, Separate, Flat, Moving;
      table, lists', t' := seq(size, _ => NULL), seq(size, _ => []), seq(size, _ => []);
      ghost var bag := Bag();
      MovingStart(heads, lists, chains, next, node, size);
      LinkedSizes(heads, next, node, lists, chains);
      for i := 0 to |heads|
        invariant |heads| == old(|heads|) == |chains| && |table| == size
        invariant Moving(heads, lists, chains, table, lists', t', next, node, bag)
        invariant forall j | 0 <= j < i :: chains[j] == []
      {
        table, lists', t' := MoveChain(i, table, lists', t', bag);
      }
      MovingEnd(heads, lists, chains, table, lists', t', next, node, bag);
    }

    /** Moves to the next prime, unless the last one is in use. */
    method Expand() returns (grown: bool)
      requires Shaped()
      modifies `heads, `next, `lists, `chains, `loadLimit, `primeIndex
      ensures Shaped() && Bag() == old(Bag())
      ensures grown <==> old(primeIndex) < LAST_PRIME
      ensures primeIndex == if grown then old(primeIndex) + 1 else old(primeIndex)
    {
      hide Prime, LoadLimit, Placed, Linked;
      LimitsFit(primeIndex);
      if primeIndex == LAST_PRIME { return false; }
      primeIndex := primeIndex + 1;
      LimitsFit(primeIndex);
      var newSize := Prime(primeIndex);
      var table;
      ghost var lists', t';
      table, lists', t' := Rehash(newSize);
      heads := table;
      lists, chains := lists', t';
      loadLimit := LoadLimit(primeIndex);
      grown := true;
    }

    /** Counts one more entry and makes room for it. */
    method MakeRoom()
      requires Valid()
      modifies `heads, `next, `lists, `chains, `entryCount, `loadLimit, `primeIndex
      ensures Shaped() && Bag() == old(Bag()) && |Flat(chains)| == old(|Flat(chains)|)
      ensures entryCount == (|Flat(chains)| + 1) % UINT32
      ensures primeIndex < LAST_PRIME ==> |Flat(chains)| + 1 <= loadLimit
      ensures primeIndex == old(primeIndex)
        + if old(|Flat(chains)| >= loadLimit && primeIndex < LAST_PRIME) then 1 else 0
    {
      hide Lawful, Prime, LoadLimit, Placed, Spread, Flat, Linked;
      LimitsFit(primeIndex);
      CountNext(|Flat(chains)|);
      ghost var n := |Flat(chains)|;
      entryCount := (entryCount + 1) % UINT32;
      if entryCount > loadLimit {
        SizeOfBag(Flat(chains));
        var grown := Expand();
        SizeOfBag(Flat(chains));
      }
    }

    /** Adds an entry, growing the table first when its load limit would be exceeded. */
    method Insert(k: Key, v: Value)
      requires Valid()
      modifies `heads, `next, `node, `lists, `chains, `entryCount, `loadLimit, `primeIndex
      ensures Valid()
      ensures Bag() == old(Bag()) + multiset{Entry(k, v, DoHash(k))}
      ensures primeIndex == old(primeIndex)
        + if old(|Flat(chains)| >= loadLimit && primeIndex < LAST_PRIME) then 1 else 0
    {
      hide Lawful, Prime, LoadLimit, Placed, Spread, Flat, Linked;
      MakeRoom();
      LimitsFit(primeIndex);
      LinkedSizes(heads, next, node, lists, chains);
      SizeOfBag(Flat(chains));
      var e := Entry(k, v, DoHash(k));
      var index := IndexFor(|heads|, e.hash);
      // a new node: any address that is not in use
      ghost var m := Bounded(next.Keys);
      assert m != NULL && m !in next;
      var p :| p != NULL && p !in next;
      NewIsUnused(heads, next, node, lists, chains, p);
      LinkedPush(heads, next, node, lists, chains, index, p, e);
      PushKeeps(chains, e);
      node := node[p := e];
      next := next[p := heads[index]];
      heads := heads[index := p];
      lists := lists[index := [p] + lists[index]];
      chains := Pushed(chains, e);
      SizeOfBag(Flat(chains));
      MembersOfBag(old(Flat(chains)), Flat(chains), e);
    }

    predicate Matches(e: Entry, k: Key) {
      e.hash == DoHash(k) && eqFn(k, e.key)
    }

    /** Walks the chain of `k` up to its node, keeping the one in front; null if there is none. */
    method Locate(k: Key) returns (index: nat, parent: Ptr, cursor: Ptr, ghost pos: nat)
      requires Valid()
      ensures index < |heads| == |lists| == |chains| && pos <= |lists[index]| == |chains[index]|
      ensures cursor == NodeAt(lists[index], pos) && parent == NodeBefore(lists[index], pos)
      ensures cursor != NULL <==> pos < |lists[index]|
      ensures cursor != NULL ==> cursor in next && cursor in node && node[cursor] == chains[index][pos]
      ensures cursor != NULL ==> Holds(Bag(), eqFn, k, chains[index][pos])
      ensures cursor == NULL ==> !Bound(Bag(), eqFn, k)
    {
      hide Lawful, Prime, LoadLimit, Placed, Spread, Flat, Linked;
      LimitsFit(primeIndex);
      LinkedSizes(heads, next, node, lists, chains);
      index := IndexFor(|heads|, DoHash(k));
      parent, cursor, pos := NULL, heads[index], 0;
      WalkAt(heads, next, node, lists, chains, index, 0);
      while cursor != NULL && !Matches(node[cursor], k)
        invariant pos <= |lists[index]| == |chains[index]|
        invariant cursor == NodeAt(lists[index], pos) && parent == NodeBefore(lists[index], pos)
        invariant cursor != NULL <==> pos < |lists[index]|
        invariant cursor != NULL ==> cursor in next && cursor in node && node[cursor] == chains[index][pos]
        invariant forall j | 0 <= j < pos :: !Matches(chains[index][j], k)
        decreases |lists[index]| - pos
      {
        WalkAt(heads, next, node, lists, chains, index, pos);
        WalkAt(heads, next, node, lists, chains, index, pos + 1);
        parent, cursor, pos := cursor, next[cursor], pos + 1;
      }
      if cursor != NULL {
        ChainMember(chains, index, chains[index][pos]);
      } else {
        OnlyInOwnChain(chains, hashFn, eqFn, k);
      }
    }

    /** The value bound to `k`, and 0 if there is none: a bound 0 looks the same. */
    method Search(k: Key) returns (r: Value)
      requires Valid()
      ensures !Bound(Bag(), eqFn, k) ==> r == 0
      ensures Bound(Bag(), eqFn, k) ==> exists e :: Holds(Bag(), eqFn, k, e) && r == e.value
    {
      var index, parent, cursor, pos := Locate(k);
      if cursor == NULL { return 0; }
      r := node[cursor].value;
    }

    /** Binds `k`, which must be present, to another value. */
    method Change(k: Key, v: Value) returns (found: bool, ghost e: Entry)
      requires Valid()
      modifies `node, `chains
      ensures Valid()
      ensures found <==> old(Bound(Bag(), eqFn, k))
      ensures found ==> old(Holds(Bag(), eqFn, k, e)) && Bag() == old(Bag()) - multiset{e} + multiset{e.(value := v)}
      ensures !found ==> chains == old(chains)
    {
      hide Lawful, Prime, LoadLimit, Placed, Spread, Flat, Linked;
      var index, parent, cursor, pos := Locate(k);
      if cursor == NULL { return false, Entry(k, v, 0); }
      var entry := node[cursor].(value := v);
      e, found := node[cursor], true;
      SpliceKeeps(chains, index, pos, [entry]);
      SpliceMembers(chains, index, pos, [entry]);
      LinkedChange(heads, next, node, lists, chains, index, pos, entry);
      node := node[cursor := entry];
      chains := Spliced(chains, index, pos, [entry]);
    }

    /** Unlinks a node through the word that leads to it and frees it. */
    method Unlink(index: nat, parent: Ptr, cursor: Ptr, ghost pos: nat)
      requires Valid() && index < |heads| == |lists| == |chains| && pos < |lists[index]| == |chains[index]|
      requires cursor == lists[index][pos] && parent == NodeBefore(lists[index], pos)
      modifies `heads, `next, `lists, `chains, `entryCount
      ensures Valid() && chains == Spliced(old(chains), index, pos, [])
      ensures lists == old(lists)[index := Cut(old(lists)[index], pos)]
      ensures Bag() == old(Bag()) - multiset{old(chains)[index][pos]}
      ensures cursor in next && cursor in old(next) && next[cursor] == old(next)[cursor] && Unused(lists, cursor)
    {
      hide Lawful, Prime, LoadLimit, Placed, Spread, Flat, Linked, Unused;
      SpliceKeeps(chains, index, pos, []);
      SpliceMembers(chains, index, pos, []);
      CountPrevious(|Flat(chains)|);
      LinkedCut(heads, next, node, lists, chains, index, pos);
      if parent == NULL {
        heads := heads[index := next[cursor]];
      } else {
        next := next[parent := next[cursor]];
      }
      lists := lists[index := Cut(lists[index], pos)];
      chains := Spliced(chains, index, pos, []);
      entryCount := (entryCount + UINT32 - 1) % UINT32;
    }

    /** Gives back the memory of a node that is in no chain. */
    method FreeNode(p: Ptr)
      requires Valid() && Unused(lists, p)
      modifies `next, `node
      ensures Valid() && p !in next && p !in node
    {
      hide Lawful, Prime, LoadLimit, Placed, Spread, Flat, Linked, Unused;
      LinkedElsewhere(heads, next, node, next - {p}, node - {p}, lists, chains, p);
      next, node := next - {p}, node - {p};
    }

    /**
     Takes out the entry for `k`, if there is one and `cond` accepts its value, which is returned.
     0 is returned if nothing was taken out; a value of 0 looks the same.
     */
    method CondRemove(k: Key, cond: Option<Value -> bool>) returns (r: Value, ghost e: Entry, ghost removed: bool)
      requires Valid()
      modifies `heads, `next, `node, `lists, `chains, `entryCount
      ensures Valid()
      ensures old(Bound(Bag(), eqFn, k)) ==> old(Holds(Bag(), eqFn, k, e))
      ensures removed <==> old(Bound(Bag(), eqFn, k)) && (cond.Some? ==> cond.value(e.value))
      ensures r == if removed then e.value else 0
      ensures Bag() == if removed then old(Bag()) - multiset{e} else old(Bag())
    {
      hide Lawful, Prime, LoadLimit, Placed, Spread, Flat, Linked, Unused;
      var index, parent, cursor, pos := Locate(k);
      if cursor == NULL { return 0, Entry(k, 0, 0), false; }
      e, removed := node[cursor], false;
      r := node[cursor].value;
      if cond.Some? && !cond.value(r) { return 0, e, false; }
      Unlink(index, parent, cursor, pos);
      FreeNode(cursor);
      removed := true;
    }
  }

  lemma MovedOut(heads: seq<Ptr>, lists: seq<seq<Ptr>>, t: Chains, heads': seq<Ptr>, lists': seq<seq<Ptr>>, t': Chains,
                 next: Words, node: Nodes, bag: multiset<Entry>, i: nat)
    requires Moving(heads, lists, t, heads', lists', t', next, node, bag) && i < |heads| == |t| && heads[i] == NULL
    ensures t[i] == []
  {
    WalkAt(heads, next, node, lists, t, i, 0);
  }

  lemma MovingStart(heads: seq<Ptr>, lists: seq<seq<Ptr>>, t: Chains, next: Words, node: Nodes, n: nat)
    requires Linked(heads, next, node, lists, t) && n > 0
    ensures Moving(heads, lists, t, seq(n, _ => NULL), seq(n, _ => []), seq(n, _ => []), next, node, multiset(Flat(t)))
  {
    hide Linked, Flat, Placed;
    NothingLinked(n, next, node);
    assert Separate(lists, seq(n, _ => []));
  }

  lemma MovingEnd(heads: seq<Ptr>, lists: seq<seq<Ptr>>, t: Chains, heads': seq<Ptr>, lists': seq<seq<Ptr>>, t': Chains,
                  next: Words, node: Nodes, bag: multiset<Entry>)
    requires Moving(heads, lists, t, heads', lists', t', next, node, bag) && forall j | 0 <= j < |t| :: t[j] == []
    ensures Linked(heads', next, node, lists', t') && |heads'| == |t'| && Placed(t') && multiset(Flat(t')) == bag
  {
    FlatEmpty(t);
  }

  lemma LinkedSizes(heads: seq<Ptr>, next: Words, node: Nodes, lists: seq<seq<Ptr>>, t: Chains)
    requires Linked(heads, next, node, lists, t)
    ensures |heads| == |lists| == |t|
  {
  }

  /** What following the links of chain `i` shows at position `k`. */
  lemma WalkAt(heads: seq<Ptr>, next: Words, node: Nodes, lists: seq<seq<Ptr>>, t: Chains, i: nat, k: nat)
    requires Linked(heads, next, node, lists, t) && i < |t|
    ensures i < |heads| && i < |lists| && |lists[i]| == |t[i]| && heads[i] == NodeAt(lists[i], 0)
    ensures NodeAt(lists[i], k) != NULL <==> k < |lists[i]|
    ensures k < |lists[i]| ==>
      var p := lists[i][k];
      p in next && p in node && next[p] == NodeAt(lists[i], k + 1) && node[p] == t[i][k]
  {
    assert Strung(next, node, heads[i], lists[i], t[i]);
    if k < |lists[i]| { StrungAt(next, node, heads[i], lists[i], t[i], k); }
  }

  lemma NewIsUnused(heads: seq<Ptr>, next: Words, node: Nodes, lists: seq<seq<Ptr>>, t: Chains, p: Ptr)
    requires Linked(heads, next, node, lists, t) && p !in next
    ensures Unused(lists, p)
  {
    forall i | 0 <= i < |lists| ensures p !in lists[i] {
      StrungKnown(next, node, heads[i], lists[i], t[i]);
    }
  }

  lemma LinkedChange(heads: seq<Ptr>, next: Words, node: Nodes, lists: seq<seq<Ptr>>, t: Chains, i: nat, k: nat,
                     e: Entry)
    requires Linked(heads, next, node, lists, t) && i < |t| && k < |t[i]|
    ensures k < |lists[i]| && Linked(heads, next, node[lists[i][k] := e], lists, Spliced(t, i, k, [e]))
  {
    hide Strung;
    WalkAt(heads, next, node, lists, t, i, k);
    var p := lists[i][k];
    var node' := node[p := e];
    StrungChange(next, node, heads[i], lists[i], t[i], k, e);
    assert t[i][..k] + [e] + t[i][k + 1..] == t[i][k := e];
    assert p in lists[i];
    forall j | 0 <= j < |t| && j != i ensures Strung(next, node', heads[j], lists[j], t[j]) {
      StrungKnown(next, node, heads[j], lists[j], t[j]);
      StrungElsewhere(next, node, next, node', heads[j], lists[j], t[j]);
    }
  }

  /** Unlinking through the slot of the table, or through the node in front. */
  lemma LinkedCut(heads: seq<Ptr>, next: Words, node: Nodes, lists: seq<seq<Ptr>>, t: Chains, i: nat, k: nat)
    requires Linked(heads, next, node, lists, t) && i < |t| && k < |t[i]|
    ensures |heads| == |lists| == |t| && k < |lists[i]| && lists[i][k] in next
    ensures var p, parent := lists[i][k], NodeBefore(lists[i], k);
      var lists', t' := lists[i := Cut(lists[i], k)], Spliced(t, i, k, []);
      && (parent == NULL <==> k == 0)
      && (k == 0 ==> Linked(heads[i := next[p]], next, node, lists', t'))
      && (k > 0 ==> Linked(heads, next[parent := next[p]], node, lists', t'))
      && Unused(lists', p) && (k > 0 ==> parent != p)
  {
    hide Strung;
    WalkAt(heads, next, node, lists, t, i, k);
    StrungCut(next, node, heads[i], lists[i], t[i], k);
    assert t[i][..k] + [] + t[i][k + 1..] == Cut(t[i], k);
    var p := lists[i][k];
    assert p in lists[i];
    if k > 0 {
      WalkAt(heads, next, node, lists, t, i, k - 1);
      var parent := lists[i][k - 1];
      assert parent in lists[i];
      var next' := next[parent := next[p]];
      forall j | 0 <= j < |t| && j != i ensures Strung(next', node, heads[j], lists[j], t[j]) {
        StrungKnown(next, node, heads[j], lists[j], t[j]);
        StrungElsewhere(next, node, next', node, heads[j], lists[j], t[j]);
      }
      StrungDistinct(next, node, heads[i], lists[i], t[i], k - 1, k);
    }
  }

  lemma StrungDistinct(next: Words, node: Nodes, head: Ptr, ps: seq<Ptr>, es: seq<Entry>, i: nat, j: nat)
    requires Strung(next, node, head, ps, es) && i < j < |ps|
    ensures ps[i] != ps[j]
  {
  }

  /** Entries for `k` can only be in the chain that the hash of `k` selects. */
  lemma OnlyInOwnChain(t: Chains, hash: Key -> bv32, eq: (Key, Key) -> bool, k: Key)
    requires Lawful(hash, eq) && Placed(t) && |t| > 0
    requires forall e | e in Flat(t) :: e.hash == Spread(hash(e.key))
    requires forall e | e in t[IndexFor(|t|, Spread(hash(k)))] :: !(e.hash == Spread(hash(k)) && eq(k, e.key))
    ensures !Bound(multiset(Flat(t)), eq, k)
  {
    hide Spread;
    forall e | e in multiset(Flat(t)) ensures !eq(k, e.key) {
      var i := FlatMember(t, e);
      assert eq(k, e.key) ==> hash(k) == hash(e.key);
    }
  }

  /** The entries in front of position `pos` of chain `index`, and those behind it. */
  function Before(t: Chains, index: nat, pos: nat): seq<Entry>
    requires index < |t| && pos <= |t[index]|
  {
    Flat(t[..index]) + t[index][..pos]
  }

  function Behind(t: Chains, index: nat, pos: nat): seq<Entry>
    requires index < |t| && pos < |t[index]|
  {
    t[index][pos + 1..] + Flat(t[index + 1..])
  }

  /** `t` with entry `pos` of chain `index` replaced by `with`. */
  function Spliced(t: Chains, index: nat, pos: nat, with: seq<Entry>): Chains
    requires index < |t| && pos < |t[index]|
  {
    t[index := t[index][..pos] + with + t[index][pos + 1..]]
  }

  lemma SpliceFlat(t: Chains, index: nat, pos: nat, with: seq<Entry>)
    requires index < |t| && pos < |t[index]|
    ensures Flat(t) == Before(t, index, pos) + [t[index][pos]] + Behind(t, index, pos)
    ensures Flat(Spliced(t, index, pos, with)) == Before(t, index, pos) + with + Behind(t, index, pos)
  {
    hide Flat;
    var chain := t[index];
    var before, behind := Flat(t[..index]), Flat(t[index + 1..]);
    FlatSplit(t, index);
    assert chain == chain[..pos] + [chain[pos]] + chain[pos + 1..];
    Regroup(before, chain[..pos], [chain[pos]], chain[pos + 1..], behind);
    FlatUpdate(t, index, chain[..pos] + with + chain[pos + 1..]);
    Regroup(before, chain[..pos], with, chain[pos + 1..], behind);
  }

  lemma Regroup(a: seq<Entry>, b: seq<Entry>, c: seq<Entry>, d: seq<Entry>, e: seq<Entry>)
    ensures a + (b + c + d) + e == (a + b) + c + (d + e)
  {
  }

  lemma SpliceKeeps(t: Chains, index: nat, pos: nat, with: seq<Entry>)
    requires index < |t| && pos < |t[index]| && Placed(t)
    requires forall e | e in with :: e.hash == t[index][pos].hash
    ensures Placed(Spliced(t, index, pos, with))
  {
    var r := Spliced(t, index, pos, with);
    forall i, e: Entry | 0 <= i < |r| && e in r[i] ensures IndexFor(|r|, e.hash) == i {
      if i == index && e !in with { assert e in t[index]; }
    }
  }

  lemma SpliceMembers(t: Chains, index: nat, pos: nat, with: seq<Entry>)
    requires index < |t| && pos < |t[index]|
    ensures multiset(Flat(Spliced(t, index, pos, with))) == multiset(Flat(t)) - multiset{t[index][pos]} + multiset(with)
    ensures |Flat(Spliced(t, index, pos, with))| == |Flat(t)| - 1 + |with|
    ensures t[index][pos] in Flat(t)
    ensures forall e | e in Flat(Spliced(t, index, pos, with)) :: e in Flat(t) || e in with
  {
    SpliceFlat(t, index, pos, with);
  }

  lemma CountPrevious(n: nat)
    requires n > 0
    ensures (n % UINT32 + UINT32 - 1) % UINT32 == (n - 1) % UINT32
  {
  }

  lemma CountNext(n: nat)
    ensures (n % UINT32 + 1) % UINT32 == (n + 1) % UINT32
    ensures n < UINT32 - 1 ==> (n + 1) % UINT32 == n + 1
  {
  }

  lemma SizeOfBag(s: seq<Entry>)
    ensures |multiset(s)| == |s|
  {
  }

  lemma MembersOfBag(s: seq<Entry>, t: seq<Entry>, e: Entry)
    requires multiset(t) == multiset(s) + multiset{e}
    ensures forall x | x in t :: x in s || x == e
  {
    forall x | x in t ensures x in s || x == e {
      assert x in multiset(t);
    }
  }

  // ---------------------------------------------------------------- every run refines a map

  datatype MapOp = Add(key: Key, value: Value) | Rebind(key: Key, value: Value) | Drop(key: Key) | Ask(key: Key)

  ghost function Apply(d: map<Key, Value>, eq: (Key, Key) -> bool, op: MapOp): map<Key, Value> {
    match op
    case Add(k, v) => Without(d, eq, k)[k := v]
    case Rebind(k, v) => map x | x in d :: if eq(k, x) then v else d[x]
    case Drop(k) => Without(d, eq, k)
    case Ask(_) => d
  }

  ghost function ApplyAll(d: map<Key, Value>, eq: (Key, Key) -> bool, ops: seq<MapOp>): map<Key, Value> {
    if ops == [] then d else Apply(ApplyAll(d, eq, ops[..|ops| - 1]), eq, ops[|ops| - 1])
  }

  ghost predicate Has(d: map<Key, Value>, eq: (Key, Key) -> bool, k: Key) {
    exists x :: x in d && eq(k, x)
  }

  /** `r` is the word that the map `d` answers for key `k`: its value, or 0 if it has none. */
  ghost predicate Answers(d: map<Key, Value>, eq: (Key, Key) -> bool, k: Key, r: Value) {
    && (!Has(d, eq, k) ==> r == 0)
    && (forall x | x in d && eq(k, x) :: r == d[x])
  }

  /** A rebinding answers whether the key was bound; every other operation with the word of the key. */
  ghost predicate Replies(d: map<Key, Value>, eq: (Key, Key) -> bool, op: MapOp, r: Value) {
    if op.Rebind? then r != 0 <==> Has(d, eq, op.key) else Answers(d, eq, op.key, r)
  }

  /** An answer tells whether the key is bound, exactly when it is not bound to 0. */
  lemma AnswerTells(d: map<Key, Value>, eq: (Key, Key) -> bool, k: Key, r: Value)
    requires Answers(d, eq, k, r)
    ensures (r != 0 <==> Has(d, eq, k)) <==> !exists x :: x in d && eq(k, x) && d[x] == 0
  {
    if Has(d, eq, k) {
      var x :| x in d && eq(k, x);
      assert r == d[x];
    }
  }

  /** What the map answers after an operation: other keys are answered as before. */
  lemma ApplyAnswers(d: map<Key, Value>, hash: Key -> bv32, eq: (Key, Key) -> bool, op: MapOp, q: Key, r: Value)
    requires Lawful(hash, eq)
    ensures Answers(Apply(d, eq, op), eq, q, r) <==>
      if !eq(op.key, q) then Answers(d, eq, q, r)
      else match op
        case Add(_, v) => r == v
        case Rebind(_, v) => r == if Has(d, eq, q) then v else 0
        case Drop(_) => r == 0
        case Ask(_) => Answers(d, eq, q, r)
  {
    var k, d' := op.key, Apply(d, eq, op);
    forall x ensures eq(k, q) ==> (eq(q, x) <==> eq(k, x)) {}
    forall x ensures !eq(k, q) && eq(q, x) ==> !eq(k, x) {}
    match op
    case Add(_, v) => assert k in d' && d'[k] == v;
    case Rebind(_, v) => assert forall x | x in d' :: x in d && d'[x] == if eq(k, x) then v else d[x];
    case Drop(_) => assert forall x | x in d' :: x in d && d'[x] == d[x];
    case Ask(_) =>
  }

  /** One map operation on the table; `Add` first takes out an older entry, as the buffer manager does. */
  method Step(t: Table, op: MapOp, ghost d: map<Key, Value>) returns (r: Value)
    requires t.Valid() && Represents(t.Bag(), t.eqFn, d)
    modifies t
    ensures t.Valid() && Represents(t.Bag(), t.eqFn, Apply(d, t.eqFn, op))
    ensures Replies(d, t.eqFn, op, r)
  {
    hide Represents, Flat;
    r := 0;
    ghost var bag := t.Bag();
    ghost var e, removed;
    BoundIs(bag, t.eqFn, d, op.key);
    match op {
      case Add(k, v) =>
        r, e, removed := t.CondRemove(k, None);
        if removed {
          RemoveRepresents(bag, t.eqFn, t.hashFn, d, k, e);
          HeldIs(bag, t.eqFn, t.hashFn, d, k, e);
        }
        InsertRepresents(t.Bag(), t.eqFn, t.hashFn, Without(d, t.eqFn, k), Entry(k, v, t.DoHash(k)));
        t.Insert(k, v);
      case Rebind(k, v) =>
        var found;
        found, e := t.Change(k, v);
        if found {
          ChangeRepresents(bag, t.eqFn, t.hashFn, d, e, v);
          RebindIs(bag, t.eqFn, t.hashFn, d, k, e, v);
          r := 1;
        } else {
          assert Apply(d, t.eqFn, op) == d;
        }
      case Drop(k) =>
        r, e, removed := t.CondRemove(k, None);
        if removed {
          RemoveRepresents(bag, t.eqFn, t.hashFn, d, k, e);
          HeldIs(bag, t.eqFn, t.hashFn, d, k, e);
        }
      case Ask(k) =>
        r := t.Search(k);
        if Bound(bag, t.eqFn, k) {
          ghost var f :| Holds(bag, t.eqFn, k, f) && r == f.value;
          HeldIs(bag, t.eqFn, t.hashFn, d, k, f);
        }
    }
  }

  /** The value of a key's entry is what the map binds the key to. */
  lemma HeldIs(bag: multiset<Entry>, eq: (Key, Key) -> bool, hash: Key -> bv32, d: map<Key, Value>, k: Key, e: Entry)
    requires Lawful(hash, eq) && Represents(bag, eq, d) && Holds(bag, eq, k, e)
    ensures Answers(d, eq, k, e.value)
  {
    KeyIsBound(bag, eq, d, e);
    SoleKey(bag, eq, hash, d, e);
    forall x | x in d && eq(k, x) ensures x == e.key {
      assert eq(e.key, x);
      assert x !in Without(d, eq, e.key);
    }
  }

  lemma KeyIsBound(bag: multiset<Entry>, eq: (Key, Key) -> bool, d: map<Key, Value>, e: Entry)
    requires Represents(bag, eq, d) && e in bag
    ensures e.key in d && d[e.key] == e.value
  {
  }

  lemma RebindIs(bag: multiset<Entry>, eq: (Key, Key) -> bool, hash: Key -> bv32, d: map<Key, Value>, k: Key, e: Entry,
                 v: Value)
    requires Lawful(hash, eq) && Represents(bag, eq, d) && Holds(bag, eq, k, e)
    ensures Apply(d, eq, Rebind(k, v)) == d[e.key := v]
  {
    SoleKey(bag, eq, hash, d, e);
    forall x | x in d && eq(k, x) ensures x == e.key {
      assert eq(e.key, x);
      assert x !in Without(d, eq, e.key);
    }
    KeyIsBound(bag, eq, d, e);
  }

  /** Any sequence of operations, over any number of expansions, is a run of the finite map. */
  method Run(t: Table, ops: seq<MapOp>, ghost d: map<Key, Value>) returns (answers: seq<Value>)
    requires t.Valid() && Represents(t.Bag(), t.eqFn, d)
    modifies t
    ensures t.Valid() && Represents(t.Bag(), t.eqFn, ApplyAll(d, t.eqFn, ops))
    ensures |answers| == |ops|
    ensures forall i | 0 <= i < |ops| :: Replies(ApplyAll(d, t.eqFn, ops[..i]), t.eqFn, ops[i], answers[i])
  {
    hide *;
    answers := [];
    ApplyNothing(d, t.eqFn, ops);
    while |answers| < |ops|
      invariant |answers| <= |ops| && t.Valid() && Represents(t.Bag(), t.eqFn, ApplyAll(d, t.eqFn, ops[..|answers|]))
      invariant forall i | 0 <= i < |answers| :: Replies(ApplyAll(d, t.eqFn, ops[..i]), t.eqFn, ops[i], answers[i])
    {
      var n := |answers|;
      var r := Step(t, ops[n], ApplyAll(d, t.eqFn, ops[..n]));
      ApplyNext(d, t.eqFn, ops, n);
      answers := answers + [r];
    }
    assert ops[..|ops|] == ops;
  }

  lemma ApplyNothing(d: map<Key, Value>, eq: (Key, Key) -> bool, ops: seq<MapOp>)
    ensures ApplyAll(d, eq, ops[..0]) == d
  {
  }

  lemma ApplyNext(d: map<Key, Value>, eq: (Key, Key) -> bool, ops: seq<MapOp>, n: nat)
    requires n < |ops|
    ensures ApplyAll(d, eq, ops[..n + 1]) == Apply(ApplyAll(d, eq, ops[..n]), eq, ops[n])
  {
    hide Apply;
    assert ops[..n + 1][..n] == ops[..n];
  }

  // ---------------------------------------------------------------- iteration

  /** A position in a table: an entry, or the end. */
  datatype Cursor = End | At(index: nat, pos: nat)

  ghost predicate Points(t: Chains, c: Cursor) {
    c.At? ==> c.index < |t| && c.pos < |t[c.index]|
  }

  /** What an iteration has passed, and what is still to come, starting with the current entry. */
  ghost function Passed(t: Chains, c: Cursor): seq<Entry>
    requires Points(t, c)
  {
    if c.End? then Flat(t) else Before(t, c.index, c.pos)
  }

  ghost function Rest(t: Chains, c: Cursor): seq<Entry>
    requires Points(t, c)
  {
    if c.End? then [] else [t[c.index][c.pos]] + Behind(t, c.index, c.pos)
  }

  lemma SkipEmpty(t: Chains, j: nat)
    requires j < |t| && t[j] == []
    ensures Flat(t[j..]) == Flat(t[j + 1..]) && Flat(t[..j + 1]) == Flat(t[..j])
  {
    assert t[j..][1..] == t[j + 1..];
    FlatSnoc(t, j);
  }

  lemma ChainStart(t: Chains, j: nat)
    requires j < |t| && t[j] != []
    ensures Rest(t, At(j, 0)) == Flat(t[j..]) && Passed(t, At(j, 0)) == Flat(t[..j])
  {
    assert t[j..][1..] == t[j + 1..];
    assert t[j] == [t[j][0]] + t[j][1..];
  }

  /** One step within a chain, and the step out of it. */
  lemma StepWithin(t: Chains, i: nat, p: nat)
    requires i < |t| && p + 1 < |t[i]|
    ensures Rest(t, At(i, p)) == [t[i][p]] + Rest(t, At(i, p + 1))
    ensures Passed(t, At(i, p + 1)) == Passed(t, At(i, p)) + [t[i][p]]
  {
    hide Flat;
    var chain, before, behind := t[i], Flat(t[..i]), Flat(t[i + 1..]);
    assert chain[p + 1..] == [chain[p + 1]] + chain[p + 2..];
    Reassociate([chain[p + 1]], chain[p + 2..], behind);
    assert chain[..p + 1] == chain[..p] + [chain[p]];
    Reassociate(before, chain[..p], [chain[p]]);
  }

  lemma Reassociate(a: seq<Entry>, b: seq<Entry>, c: seq<Entry>)
    ensures (a + b) + c == a + (b + c)
  {
  }

  lemma StepOut(t: Chains, i: nat, p: nat)
    requires i < |t| && p + 1 == |t[i]|
    ensures Rest(t, At(i, p)) == [t[i][p]] + Flat(t[i + 1..])
    ensures Flat(t[..i + 1]) == Passed(t, At(i, p)) + [t[i][p]]
  {
    hide Flat;
    FlatSnoc(t, i);
    assert t[i] == t[i][..p] + [t[i][p]];
    Reassociate(Flat(t[..i]), t[i][..p], [t[i][p]]);
    assert t[i][p + 1..] + Flat(t[i + 1..]) == Flat(t[i + 1..]);
  }

  /** The first entry in chain `start` or behind it. */
  ghost function NextChain(t: Chains, start: nat): (c: Cursor)
    requires start <= |t|
    ensures c.At? ==> start <= c.index < |t| && c.pos == 0 && t[c.index] != []
    ensures forall j | start <= j < (if c.At? then c.index else |t|) :: t[j] == []
    decreases |t| - start
  {
    if start == |t| then End else if t[start] != [] then At(start, 0) else NextChain(t, start + 1)
  }

  lemma {:induction false} NextChainIs(t: Chains, start: nat)
    requires start <= |t|
    ensures var c := NextChain(t, start);
      Points(t, c) && Rest(t, c) == Flat(t[start..]) && Passed(t, c) == Flat(t[..start])
    decreases |t| - start
  {
    hide Rest, Passed;
    if start == |t| {
      assert t[..start] == t && t[start..] == [];
      EndIs(t);
    } else if t[start] != [] {
      ChainStart(t, start);
    } else {
      SkipEmpty(t, start);
      NextChainIs(t, start + 1);
    }
  }

  lemma RestHead(t: Chains, i: nat, p: nat)
    requires i < |t| && p < |t[i]|
    ensures Rest(t, At(i, p)) != [] && Rest(t, At(i, p))[0] == t[i][p]
  {
  }

  lemma EndIs(t: Chains)
    ensures Rest(t, End) == [] == Flat([]) && Passed(t, End) == Flat(t)
  {
  }

  /** Taking out the current entry leaves the rest of the iteration as it was. */
  lemma RemoveWithin(t: Chains, i: nat, p: nat)
    requires i < |t| && p + 1 < |t[i]|
    ensures var t' := Spliced(t, i, p, []);
            Passed(t', At(i, p)) == Passed(t, At(i, p)) && Rest(t', At(i, p)) == Rest(t, At(i, p))[1..]
  {
    hide Flat;
    var t', chain := Spliced(t, i, p, []), t[i];
    assert t'[..i] == t[..i] && t'[i + 1..] == t[i + 1..];
    assert t'[i] == chain[..p] + chain[p + 1..];
    assert t'[i][..p] == chain[..p];
    assert chain[p + 1..] == [t'[i][p]] + t'[i][p + 1..];
    Reassociate([t'[i][p]], t'[i][p + 1..], Flat(t[i + 1..]));
  }

  lemma RemoveLast(t: Chains, i: nat, p: nat)
    requires i < |t| && p + 1 == |t[i]|
    ensures var t' := Spliced(t, i, p, []);
            Flat(t'[..i + 1]) == Passed(t, At(i, p)) && Flat(t'[i + 1..]) == Rest(t, At(i, p))[1..]
  {
    hide Flat;
    var t' := Spliced(t, i, p, []);
    FlatSnoc(t', i);
    assert t'[i] == t[i][..p];
    assert t'[..i] == t[..i] && t'[i + 1..] == t[i + 1..];
    assert t[i][p + 1..] + Flat(t[i + 1..]) == Flat(t[i + 1..]);
  }

  /** Where the iteration goes on once the entry at position `p` of chain `i` is out of the table. */
  lemma AfterRemove(t: Chains, i: nat, p: nat)
    requires i < |t| && p < |t[i]|
    ensures var t' := Spliced(t, i, p, []);
      var c := if p < |t'[i]| then At(i, p) else NextChain(t', i + 1);
      Points(t', c) && Passed(t', c) == Passed(t, At(i, p)) && Rest(t', c) == Rest(t, At(i, p))[1..]
  {
    hide Passed, Rest, Flat;
    var t' := Spliced(t, i, p, []);
    RestHead(t, i, p);
    if p + 1 < |t[i]| {
      RemoveWithin(t, i, p);
    } else {
      RemoveLast(t, i, p);
      NextChainIs(t', i + 1);
    }
  }

  /** The iterator keeps a node of the table and the one in front of it in its chain. */
  class Iter {
    const table: Table
    var index: nat
    var entry: Ptr
    var parent: Ptr

    ghost var pos: nat

    ghost predicate Valid()
      reads this, table
    {
      && table.Valid()
      && (entry == NULL ==> parent == NULL)
      && (entry != NULL ==>
            && index < |table.lists| == |table.chains| && pos < |table.lists[index]| == |table.chains[index]|
            && entry == table.lists[index][pos] && parent == NodeBefore(table.lists[index], pos))
    }

    ghost function Place(): (c: Cursor)
      reads this, table
      requires Valid()
      ensures Points(table.chains, c)
    {
      if entry == NULL then End else At(index, pos)
    }

    /** Starts at the first entry; a count of zero is taken to mean that there is none. */
    constructor (table: Table)
      requires table.Valid()
      ensures this.table == table && Valid()
      ensures Place() == if table.entryCount == 0 then End else NextChain(table.chains, 0)
    {
      this.table := table;
      index, entry, parent, pos := |table.heads|, NULL, NULL, 0;
      new;
      if table.entryCount != 0 {
        SeekFrom(0);
      }
    }

    /** Goes to the head of the first chain from `start` on that is not empty. */
    method SeekFrom(start: nat)
      requires table.Valid() && start <= |table.chains|
      modifies this
      ensures Valid() && Place() == NextChain(table.chains, start)
    {
      hide Lawful, Placed, Prime, LoadLimit, Flat, Linked;
      LinkedSizes(table.heads, table.next, table.node, table.lists, table.chains);
      var j := start;
      parent, pos := NULL, 0;
      while j < |table.heads| && table.heads[j] == NULL
        invariant start <= j <= |table.heads| && parent == NULL && pos == 0
        invariant NextChain(table.chains, start) == NextChain(table.chains, j)
      {
        WalkAt(table.heads, table.next, table.node, table.lists, table.chains, j, 0);
        j := j + 1;
      }
      if j < |table.heads| {
        WalkAt(table.heads, table.next, table.node, table.lists, table.chains, j, 0);
        index, entry := j, table.heads[j];
      } else {
        index, entry := |table.heads|, NULL;
      }
    }

    /** The entry the iterator is on. */
    method Current() returns (e: Entry)
      requires Valid() && entry != NULL
      ensures e == table.chains[index][pos] && Rest(table.chains, Place()) != [] && e == Rest(table.chains, Place())[0]
    {
      hide Lawful, Placed, Prime, LoadLimit, Flat, Linked;
      WalkAt(table.heads, table.next, table.node, table.lists, table.chains, index, pos);
      e := table.node[entry];
    }

    /**
     The step of `advance`, from a node that may have left the table: its link leads to position `q` of the
     chain, or to nothing if that is the end of the chain.
     */
    method Move(ghost q: nat) returns (more: bool)
      requires table.Valid() && entry != NULL && index < |table.lists| == |table.chains| && q <= |table.lists[index]|
      requires entry in table.next && table.next[entry] == NodeAt(table.lists[index], q)
      modifies this
      ensures more <==> entry != NULL
      ensures if q < |table.lists[old(index)]|
              then index == old(index) && pos == q && entry == table.lists[index][q] != NULL && parent == old(entry)
              else
                && Valid() && Place() == NextChain(table.chains, old(index) + 1)
                && (old(index) == index ==> entry == NULL)
    {
      hide Lawful, Placed, Prime, LoadLimit, Flat, Linked;
      WalkAt(table.heads, table.next, table.node, table.lists, table.chains, index, q);
      var next := table.next[entry];
      if next != NULL {
        parent, entry, pos := entry, next, q;
        return true;
      }
      SeekFrom(index + 1);
      more := entry != NULL;
    }

    /** Steps to the next entry. */
    method Advance() returns (more: bool)
      requires Valid()
      modifies this
      ensures Valid() && (more <==> entry != NULL)
      ensures old(entry) == NULL ==> entry == NULL
      ensures old(entry) != NULL ==>
                && Rest(table.chains, Place()) == Rest(table.chains, old(Place()))[1..]
                && Passed(table.chains, Place()) ==
                   Passed(table.chains, old(Place())) + [Rest(table.chains, old(Place()))[0]]
    {
      hide Lawful, Placed, Prime, LoadLimit, Flat, Linked, Rest, Passed;
      if entry == NULL {
        return false;
      }
      WalkAt(table.heads, table.next, table.node, table.lists, table.chains, index, pos);
      RestHead(table.chains, index, pos);
      if pos + 1 < |table.chains[index]| {
        StepWithin(table.chains, index, pos);
      } else {
        StepOut(table.chains, index, pos);
        NextChainIs(table.chains, index + 1);
      }
      more := Move(pos + 1);
    }

    /**
     Unlinks the current entry through its parent and steps to the one behind it. The step leaves the removed
     node as the parent if it stayed in the chain; that is corrected.
     */
    method Remove() returns (more: bool)
      requires Valid() && entry != NULL
      modifies this, table
      ensures Valid() && (more <==> entry != NULL)
      ensures Rest(table.chains, Place()) == old(Rest(table.chains, Place()))[1..]
      ensures Passed(table.chains, Place()) == old(Passed(table.chains, Place()))
      ensures table.Bag() == old(table.Bag()) - multiset{old(Rest(table.chains, Place()))[0]}
    {
      hide Lawful, Placed, Prime, LoadLimit, Flat, Linked, Unused, Rest, Passed, NextChain, Spread;
      AfterRemove(table.chains, index, pos);
      RestHead(table.chains, index, pos);
      LinkedSizes(table.heads, table.next, table.node, table.lists, table.chains);
      WalkAt(table.heads, table.next, table.node, table.lists, table.chains, index, pos);
      table.Unlink(index, parent, entry, pos);
      var removed, before := entry, parent;
      more := Move(pos);
      if parent == removed {
        parent := before;
      }
      table.FreeNode(removed);
    }

    /** Passes or removes the current entry. */
    method Visit(remove: bool) returns (e: Entry)
      requires Valid() && entry != NULL
      modifies this, table
      ensures Valid()
      ensures old(Rest(table.chains, Place())) == [e] + Rest(table.chains, Place())
      ensures Passed(table.chains, Place()) == old(Passed(table.chains, Place())) + if remove then [] else [e]
    {
      hide Lawful, Placed, Prime, LoadLimit, Flat, Rest, Passed, Points, Linked;
      e := Current();
      if remove {
        var more := Remove();
      } else {
        var more := Advance();
      }
    }

    /** Puts the iterator on the entry for `k`. */
    method Search(k: Key) returns (found: bool)
      requires Valid()
      modifies this
      ensures Valid() && (found <==> Bound(table.Bag(), table.eqFn, k))
      ensures found ==> entry != NULL && Holds(table.Bag(), table.eqFn, k, table.chains[index][pos])
      ensures !found ==> Place() == old(Place())
    {
      hide Lawful, Placed, Prime, LoadLimit, Flat, Linked;
      var i, before, cursor, p := table.Locate(k);
      found := cursor != NULL;
      if found {
        index, entry, parent, pos := i, cursor, before, p;
      }
    }
  }

  /** The entries whose turn is not to be removed; `k` is the turn of the first one. */
  function Kept(s: seq<Entry>, remove: nat -> bool, k: nat): seq<Entry> {
    if s == [] then [] else (if remove(k) then [] else [s[0]]) + Kept(s[1..], remove, k + 1)
  }

  /**
   A full iteration that removes an arbitrary choice of entries visits every entry exactly
   once and leaves exactly the others.
   */
  method Sweep(t: Table, remove: nat -> bool) returns (visited: seq<Entry>)
    requires t.Valid() && (t.entryCount == 0 ==> Flat(t.chains) == [])
    modifies t
    ensures t.Valid()
    ensures visited == old(Flat(t.chains))
    ensures Flat(t.chains) == Kept(old(Flat(t.chains)), remove, 0)
  {
    hide Lawful, Placed, Prime, LoadLimit, Flat, Rest, Passed, Kept, Points, Linked;
    ghost var all := Flat(t.chains);
    var it := new Iter(t);
    visited := [];
    NextChainIs(t.chains, 0);
    assert t.chains[0..] == t.chains && t.chains[..0] == [];
    EndIs(t.chains);
    SweepStart(t.chains, it.Place(), remove);
    while it.entry != NULL
      invariant it.Valid() && it.table == t && fresh(it)
      invariant all == visited + Rest(t.chains, it.Place())
      invariant Kept(all, remove, 0) ==
        Passed(t.chains, it.Place()) + Kept(Rest(t.chains, it.Place()), remove, |visited|)
      decreases |Rest(t.chains, it.Place())|
    {
      ghost var passed, rest := Passed(t.chains, it.Place()), Rest(t.chains, it.Place());
      var k := |visited|;
      var e := it.Visit(remove(k));
      visited := visited + [e];
      KeptStep(passed, rest, remove, k);
      Reassociate(visited[..k], [e], Rest(t.chains, it.Place()));
    }
    SweepEnd(t.chains, remove, |visited|);
  }

  lemma SweepStart(t: Chains, c: Cursor, remove: nat -> bool)
    requires Points(t, c)
    requires if c == End then Flat(t) == [] else Rest(t, c) == Flat(t) && Passed(t, c) == []
    ensures [] + Rest(t, c) == Flat(t)
    ensures Passed(t, c) + Kept(Rest(t, c), remove, 0) == Kept(Flat(t), remove, 0)
  {
  }

  lemma SweepEnd(t: Chains, remove: nat -> bool, k: nat)
    ensures Rest(t, End) == [] && Passed(t, End) + Kept(Rest(t, End), remove, k) == Flat(t)
  {
  }

  lemma KeptStep(passed: seq<Entry>, rest: seq<Entry>, remove: nat -> bool, k: nat)
    requires rest != []
    ensures passed + Kept(rest, remove, k) ==
            (passed + if remove(k) then [] else [rest[0]]) + Kept(rest[1..], remove, k + 1)
  {
    Reassociate(passed, if remove(k) then [] else [rest[0]], Kept(rest[1..], remove, k + 1));
  }
}
