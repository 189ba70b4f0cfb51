/**
 What a directory is made of: entries, the buckets that hold them, and symlink records.

 The lemmas say how putting an entry into a bucket and taking it out again changes the
 whole collection, its counts and its sizes.
 */
module DirValues {
  import opened Prelude

  const BUCKET_CAPACITY: nat := 128

  datatype Kind = Reg | Dir | Lnk

  /** A directory record: a name for an object of the volume. */
  datatype Rec = Rec(name: Bytes, kind: Kind, uuid: Uuid)

  /** Names are C strings of at most 255 bytes. */
  predicate NameOk(n: Bytes) {
    |n| <= 255 && 0 !in n
  }

  /** The size of a stored record: 24 bytes of fields, the name and its terminator. */
  function RecLen(r: Rec): nat {
    |r.name| + 25
  }

  function SumLen(rs: seq<Rec>): nat {
    if rs == [] then 0 else SumLen(rs[..|rs| - 1]) + RecLen(rs[|rs| - 1])
  }

  lemma {:induction false} SumLenConcat(a: seq<Rec>, b: seq<Rec>)
    ensures SumLen(a + b) == SumLen(a) + SumLen(b)
    decreases |b|
  {
    if b == [] {
      assert a + b == a;
    } else {
      assert (a + b)[..|a + b| - 1] == a + b[..|b| - 1];
      SumLenConcat(a, b[..|b| - 1]);
    }
  }

  function Drop(rs: seq<Rec>, k: nat): seq<Rec>
    requires k < |rs|
  {
    rs[..k] + rs[k + 1..]
  }

  lemma DropOne(rs: seq<Rec>, k: nat)
    requires k < |rs|
    ensures SumLen(Drop(rs, k)) == SumLen(rs) - RecLen(rs[k])
  {
    hide RecLen, SumLen;
    assert rs == rs[..k] + [rs[k]] + rs[k + 1..];
    SumLenConcat(rs[..k] + [rs[k]], rs[k + 1..]);
    AddOne(rs[..k], rs[k]);
    SumLenConcat(rs[..k], rs[k + 1..]);
  }

  lemma DropBag(rs: seq<Rec>, k: nat)
    requires k < |rs|
    ensures multiset(Drop(rs, k)) == multiset(rs) - multiset{rs[k]} && rs[k] in multiset(rs)
  {
    assert rs == rs[..k] + [rs[k]] + rs[k + 1..];
  }

  lemma AddOne(rs: seq<Rec>, r: Rec)
    ensures SumLen(rs + [r]) == SumLen(rs) + RecLen(r)
  {
    assert (rs + [r])[..|rs|] == rs;
  }

  // ---------------------------------------------------------------- buckets

  datatype Bucket = Bucket(
    uuid: Uuid,
    entries: seq<Rec>,
    numItems: nat,
    sizeBytes: nat,
    capacity: nat,
    isDirty: bool,
    onDisk: bool,
    mac: Mac)

  ghost predicate BucketSound(b: Bucket) {
    && b.numItems == |b.entries| <= b.capacity == BUCKET_CAPACITY
    && b.sizeBytes == SumLen(b.entries)
  }

  ghost predicate BucketsSound(bs: seq<Bucket>) {
    && |bs| > 0
    && (forall i | 0 <= i < |bs| :: BucketSound(bs[i]))
    && (forall i, j | 0 <= i < j < |bs| :: bs[i].uuid != bs[j].uuid)
  }

  /** All entries, bucket by bucket. */
  function Gather(bs: seq<Bucket>): seq<Rec> {
    if bs == [] then [] else Gather(bs[..|bs| - 1]) + bs[|bs| - 1].entries
  }

  function SumItems(bs: seq<Bucket>): nat {
    if bs == [] then 0 else SumItems(bs[..|bs| - 1]) + bs[|bs| - 1].numItems
  }

  function SumSizes(bs: seq<Bucket>): nat {
    if bs == [] then 0 else SumSizes(bs[..|bs| - 1]) + bs[|bs| - 1].sizeBytes
  }

  /** Replacing one bucket changes the collection by the difference of the two. */
  lemma {:induction false} UpdateSums(bs: seq<Bucket>, i: nat, b: Bucket)
    requires i < |bs|
    ensures SumItems(bs[i := b]) + bs[i].numItems == SumItems(bs) + b.numItems
    ensures SumSizes(bs[i := b]) + bs[i].sizeBytes == SumSizes(bs) + b.sizeBytes
    ensures bs[i].numItems <= SumItems(bs) && bs[i].sizeBytes <= SumSizes(bs)
    decreases |bs|
  {
    var n := |bs| - 1;
    if i < n {
      UpdateSums(bs[..n], i, b);
      assert bs[i := b][..n] == bs[..n][i := b];
    } else {
      assert bs[i := b][..n] == bs[..n];
    }
  }

  lemma {:induction false} UpdateGather(bs: seq<Bucket>, i: nat, b: Bucket)
    requires i < |bs|
    ensures multiset(Gather(bs[i := b])) + multiset(bs[i].entries) == multiset(Gather(bs)) + multiset(b.entries)
    ensures multiset(bs[i].entries) <= multiset(Gather(bs))
    decreases |bs|
  {
    hide Gather;
    var n, bs' := |bs| - 1, bs[i := b];
    GatherLast(bs);
    GatherLast(bs');
    if i < n {
      UpdateGather(bs[..n], i, b);
      assert bs'[..n] == bs[..n][i := b] && bs'[n] == bs[n];
      AddBag(multiset(Gather(bs'[..n])), multiset(bs[i].entries),
             multiset(Gather(bs[..n])), multiset(b.entries), multiset(bs[n].entries));
    } else {
      assert bs'[..n] == bs[..n];
    }
  }

  lemma AddBag(a: multiset<Rec>, b: multiset<Rec>, c: multiset<Rec>, d: multiset<Rec>, more: multiset<Rec>)
    requires a + b == c + d
    ensures a + more + b == c + more + d
  {
    assert a + more + b == a + b + more && c + more + d == c + d + more;
  }

  lemma GatherLast(bs: seq<Bucket>)
    requires bs != []
    ensures multiset(Gather(bs)) == multiset(Gather(bs[..|bs| - 1])) + multiset(bs[|bs| - 1].entries)
  {
  }

  lemma {:induction false} GatherConcat(a: seq<Bucket>, b: seq<Bucket>)
    ensures Gather(a + b) == Gather(a) + Gather(b)
    ensures SumItems(a + b) == SumItems(a) + SumItems(b)
    ensures SumSizes(a + b) == SumSizes(a) + SumSizes(b)
    decreases |b|
  {
    if b == [] {
      assert a + b == a;
    } else {
      var n := |b| - 1;
      assert (a + b)[..|a + b| - 1] == a + b[..n] && (a + b)[|a + b| - 1] == b[n];
      GatherConcat(a, b[..n]);
      Regroup(Gather(a), Gather(b[..n]), b[n].entries);
    }
  }

  lemma Regroup(a: seq<Rec>, b: seq<Rec>, c: seq<Rec>)
    ensures a + b + c == a + (b + c)
  {
  }

  lemma AppendBucket(bs: seq<Bucket>, b: Bucket)
    ensures Gather(bs + [b]) == Gather(bs) + b.entries
    ensures SumItems(bs + [b]) == SumItems(bs) + b.numItems
    ensures SumSizes(bs + [b]) == SumSizes(bs) + b.sizeBytes
  {
    assert (bs + [b])[..|bs|] == bs;
  }

  /** The bucket after `bucket_add_direntry`, and after `bucket_del_direntry` of entry `k`. */
  function BucketAdd(b: Bucket, r: Rec): Bucket {
    b.(entries := b.entries + [r], numItems := b.numItems + 1, sizeBytes := b.sizeBytes + RecLen(r), isDirty := true)
  }

  function BucketDel(b: Bucket, k: nat): Bucket
    requires k < |b.entries| && BucketSound(b)
  {
    DropOne(b.entries, k);
    b.(entries := Drop(b.entries, k), numItems := b.numItems - 1,
       sizeBytes := b.sizeBytes - RecLen(b.entries[k]), isDirty := true)
  }

  lemma BucketAddSound(b: Bucket, r: Rec)
    requires BucketSound(b) && |b.entries| < b.capacity
    ensures BucketSound(BucketAdd(b, r))
  {
    AddOne(b.entries, r);
  }

  lemma BucketDelSound(b: Bucket, k: nat)
    requires BucketSound(b) && k < |b.entries|
    ensures BucketSound(BucketDel(b, k))
  {
    DropOne(b.entries, k);
  }

  function NewBucket(u: Uuid): Bucket {
    Bucket(u, [], 0, 0, BUCKET_CAPACITY, false, false, seq(16, _ => 0))
  }

  predicate HasBucket(bs: seq<Bucket>, u: Uuid) {
    exists i | 0 <= i < |bs| :: bs[i].uuid == u
  }

  ghost predicate SameOrDirty(b: Bucket, b': Bucket) {
    b' == b || (b'.isDirty && b'.uuid == b.uuid && b'.onDisk == b.onDisk)
  }

  /** Every bucket is as it was or marked dirty; buckets are only added, at the end. */
  ghost predicate Touched(before: seq<Bucket>, after: seq<Bucket>) {
    && |before| <= |after|
    && (forall i | 0 <= i < |before| :: SameOrDirty(before[i], after[i]))
    && (forall i | |before| <= i < |after| :: after[i].isDirty && !after[i].onDisk)
  }

  /** Buckets behind the old ones, if any, have the name `u`. */
  ghost predicate Grown(before: seq<Bucket>, after: seq<Bucket>, u: Uuid) {
    |after| <= |before| + 1 && forall i | |before| <= i < |after| :: after[i].uuid == u
  }

  /** The names of a directory's files: its own and those of its buckets. */
  function FileNames(me: Uuid, bs: seq<Bucket>): set<Uuid> {
    {me} + set i | 0 <= i < |bs| :: bs[i].uuid
  }

  lemma NamesGrow(me: Uuid, before: seq<Bucket>, after: seq<Bucket>, u: Uuid)
    requires Touched(before, after) && Grown(before, after, u)
    ensures FileNames(me, after) <= FileNames(me, before) + {u}
    ensures |after| == |before| ==> FileNames(me, after) == FileNames(me, before)
  {
    assert forall i | 0 <= i < |before| :: SameOrDirty(before[i], after[i]);
    forall v | v in FileNames(me, after) ensures v in FileNames(me, before) + {u} {
      if v != me {
        var i :| 0 <= i < |after| && after[i].uuid == v;
        if i < |before| { assert before[i].uuid == v; }
      }
    }
    if |after| == |before| {
      forall v | v in FileNames(me, before) ensures v in FileNames(me, after) {
        if v != me {
          var i :| 0 <= i < |before| && before[i].uuid == v;
          assert after[i].uuid == v;
        }
      }
      forall v | v in FileNames(me, after) ensures v in FileNames(me, before) {
        if v != me {
          var i :| 0 <= i < |after| && after[i].uuid == v;
          assert before[i].uuid == v;
        }
      }
    }
  }

  lemma TouchedAgain(a: seq<Bucket>, b: seq<Bucket>, c: seq<Bucket>)
    requires Touched(a, b) && Touched(b, c)
    ensures Touched(a, c)
  {
    forall i | 0 <= i < |a| ensures SameOrDirty(a[i], c[i]) {
      assert SameOrDirty(a[i], b[i]) && SameOrDirty(b[i], c[i]);
    }
    forall i | |a| <= i < |c| ensures c[i].isDirty && !c[i].onDisk {
      assert i < |b| ==> SameOrDirty(b[i], c[i]);
    }
  }

  // ---------------------------------------------------------------- entries and buckets together

  /** The buckets hold exactly the listed entries, and their counts and sizes add up to the list's. */
  ghost predicate Stored(rs: seq<Rec>, bs: seq<Bucket>) {
    && BucketsSound(bs)
    && multiset(rs) == multiset(Gather(bs))
    && |rs| == SumItems(bs)
    && SumLen(rs) == SumSizes(bs)
  }

  lemma SameUuids(bs: seq<Bucket>, bs': seq<Bucket>, u: Uuid)
    requires Touched(bs, bs') && |bs'| == |bs|
    ensures HasBucket(bs', u) == HasBucket(bs, u)
  {
    assert forall i | 0 <= i < |bs| :: SameOrDirty(bs[i], bs'[i]);
  }

  lemma TouchedOne(bs: seq<Bucket>, i: nat, b: Bucket)
    requires i < |bs| && SameOrDirty(bs[i], b)
    ensures Touched(bs, bs[i := b])
  {
  }

  lemma ReplaceSound(bs: seq<Bucket>, i: nat, b: Bucket)
    requires BucketsSound(bs) && i < |bs| && BucketSound(b) && b.uuid == bs[i].uuid
    ensures BucketsSound(bs[i := b])
  {
    hide BucketSound;
  }

  lemma GrowStored(rs: seq<Rec>, bs: seq<Bucket>, u: Uuid)
    requires Stored(rs, bs) && !HasBucket(bs, u)
    ensures Stored(rs, bs + [NewBucket(u)])
  {
    hide Gather, SumItems, SumSizes;
    AppendBucket(bs, NewBucket(u));
    assert BucketSound(NewBucket(u));
    assert Gather(bs) + [] == Gather(bs);
  }

  lemma RemoveEmptyStored(rs: seq<Rec>, bs: seq<Bucket>, i: nat)
    requires Stored(rs, bs) && 0 < i < |bs| && bs[i].numItems == 0
    ensures Stored(rs, bs[..i] + bs[i + 1..])
  {
    hide Gather, SumItems, SumSizes, SumLen, BucketsSound;
    SoundAt(bs, i);
    EmptySums(bs[i]);
    assert bs == bs[..i] + ([bs[i]] + bs[i + 1..]);
    GatherConcat(bs[..i], [bs[i]] + bs[i + 1..]);
    GatherConcat([bs[i]], bs[i + 1..]);
    GatherConcat(bs[..i], bs[i + 1..]);
    RemoveSound(bs, i);
  }

  lemma EmptySums(b: Bucket)
    requires BucketSound(b) && b.numItems == 0
    ensures Gather([b]) == [] && SumItems([b]) == 0 && SumSizes([b]) == 0
  {
    AppendBucket([], b);
    assert [] + [b] == [b];
  }

  lemma RemoveSound(bs: seq<Bucket>, i: nat)
    requires BucketsSound(bs) && 0 < i < |bs|
    ensures BucketsSound(bs[..i] + bs[i + 1..])
  {
    hide BucketSound;
    var bs' := bs[..i] + bs[i + 1..];
    assert forall j | 0 <= j < |bs'| :: bs'[j] == bs[if j < i then j else j + 1];
  }

  lemma AddStored(rs: seq<Rec>, bs: seq<Bucket>, i: nat, r: Rec)
    requires Stored(rs, bs) && i < |bs| && bs[i].numItems < bs[i].capacity
    ensures Stored(rs + [r], bs[i := BucketAdd(bs[i], r)])
  {
    hide Gather, SumItems, SumSizes, SumLen, RecLen, BucketsSound;
    SoundAt(bs, i);
    var b := BucketAdd(bs[i], r);
    BucketAddSound(bs[i], r);
    ReplaceSound(bs, i, b);
    UpdateSums(bs, i, b);
    UpdateGather(bs, i, b);
    AddOne(rs, r);
    MoreBag(multiset(Gather(bs[i := b])), multiset(bs[i].entries), multiset(Gather(bs)), r);
  }

  lemma MoreBag(a: multiset<Rec>, b: multiset<Rec>, c: multiset<Rec>, r: Rec)
    requires a + b == c + (b + multiset{r})
    ensures a == c + multiset{r}
  {
    assert c + (b + multiset{r}) == (c + multiset{r}) + b;
    forall x ensures a[x] == (c + multiset{r})[x] {
      assert (a + b)[x] == ((c + multiset{r}) + b)[x];
    }
  }

  lemma DelStored(rs: seq<Rec>, bs: seq<Bucket>, k: nat, i: nat, j: nat)
    requires Stored(rs, bs) && k < |rs| && i < |bs| && j < |bs[i].entries| && rs[k] == bs[i].entries[j]
    ensures BucketSound(bs[i])
    ensures Stored(Drop(rs, k), bs[i := BucketDel(bs[i], j)])
  {
    hide Gather, SumItems, SumSizes, SumLen, RecLen, Drop, BucketsSound;
    assert BucketSound(bs[i]) by { SoundAt(bs, i); }
    var b := BucketDel(bs[i], j);
    BucketDelSound(bs[i], j);
    ReplaceSound(bs, i, b);
    UpdateSums(bs, i, b);
    UpdateGather(bs, i, b);
    DropOne(rs, k);
    DropOne(bs[i].entries, j);
    DropBag(rs, k);
    DropBag(bs[i].entries, j);
    assert |Drop(rs, k)| == |rs| - 1 by { DropLength(rs, k); }
    LessBag(multiset(Gather(bs[i := b])), multiset(bs[i].entries), multiset(Gather(bs)), rs[k]);
  }

  lemma SoundAt(bs: seq<Bucket>, i: nat)
    requires BucketsSound(bs) && i < |bs|
    ensures BucketSound(bs[i])
  {
  }

  lemma DropLength(rs: seq<Rec>, k: nat)
    requires k < |rs|
    ensures |Drop(rs, k)| == |rs| - 1
  {
  }

  lemma LessBag(a: multiset<Rec>, b: multiset<Rec>, c: multiset<Rec>, r: Rec)
    requires a + b == c + (b - multiset{r}) && r in b && b <= c
    ensures a == c - multiset{r}
  {
    forall x ensures a[x] == (c - multiset{r})[x] {
      assert (a + b)[x] == (c + (b - multiset{r}))[x];
    }
  }

  /** Where an entry is in a list, and in which bucket: what the entry's own links give directly. */
  function IndexOf(rs: seq<Rec>, r: Rec): (k: nat)
    requires r in rs
    ensures k < |rs| && rs[k] == r
  {
    if rs[0] == r then 0 else 1 + IndexOf(rs[1..], r)
  }

  function BucketOf(bs: seq<Bucket>, r: Rec): (i: nat)
    requires r in Gather(bs)
    ensures i < |bs| && r in bs[i].entries
  {
    var n := |bs| - 1;
    if r in bs[n].entries then n else BucketOf(bs[..n], r)
  }

  /** The first bucket with room, or the number of buckets. */
  function RoomIn(bs: seq<Bucket>): (i: nat)
    ensures i <= |bs| && forall j | 0 <= j < i :: bs[j].numItems >= bs[j].capacity
    ensures i < |bs| ==> bs[i].numItems < bs[i].capacity
  {
    if bs == [] || bs[0].numItems < bs[0].capacity then 0 else 1 + RoomIn(bs[1..])
  }

  /** The buckets once `r` is in the first one with room, which is a new one if all are full. */
  function Placed(bs: seq<Bucket>, r: Rec, u: Uuid): seq<Bucket> {
    var i := RoomIn(bs);
    var bs' := if i < |bs| then bs else bs + [NewBucket(u)];
    bs'[i := BucketAdd(bs'[i], r)]
  }

  /** The buckets once `r` has left its own. */
  ghost function Taken(bs: seq<Bucket>, r: Rec): seq<Bucket>
    requires r in Gather(bs) && BucketsSound(bs)
  {
    var i := BucketOf(bs, r);
    bs[i := BucketDel(bs[i], IndexOf(bs[i].entries, r))]
  }

  /** Bucket `i` alone changed: it is dirty and holds `es` now. */
  ghost predicate Rewrote(before: seq<Bucket>, after: seq<Bucket>, i: nat, es: seq<Rec>) {
    && i < |before| == |after| && after == before[i := after[i]]
    && after[i].entries == es && after[i].isDirty && after[i].uuid == before[i].uuid
  }

  /** A new entry goes to the end of the first bucket that holds fewer than 128, or into a new last bucket. */
  lemma PlacedIn(bs: seq<Bucket>, r: Rec, u: Uuid)
    requires BucketsSound(bs)
    ensures var p := Placed(bs, r, u);
      if forall j | 0 <= j < |bs| :: |bs[j].entries| == 128
      then |p| == |bs| + 1 && p[..|bs|] == bs && p[|bs|].uuid == u && p[|bs|].entries == [r] && p[|bs|].isDirty
      else exists i: nat | i < |bs| ::
          && |bs[i].entries| < 128 && (forall j | 0 <= j < i :: |bs[j].entries| == 128)
          && Rewrote(bs, p, i, bs[i].entries + [r])
  {
    hide SumLen, RecLen;
    var i := RoomIn(bs);
    if i < |bs| {
      assert Rewrote(bs, Placed(bs, r, u), i, bs[i].entries + [r]);
    }
  }

  /** An entry leaves the one bucket that holds it; the others there keep their order. */
  lemma TakenFrom(bs: seq<Bucket>, r: Rec)
    requires r in Gather(bs) && BucketsSound(bs)
    ensures exists i: nat, k: nat | i < |bs| && k < |bs[i].entries| ::
      bs[i].entries[k] == r && Rewrote(bs, Taken(bs, r), i, bs[i].entries[..k] + bs[i].entries[k + 1..])
  {
    hide SumLen, RecLen, BucketsSound, Gather;
    var i := BucketOf(bs, r);
    var k := IndexOf(bs[i].entries, r);
    assert Rewrote(bs, Taken(bs, r), i, bs[i].entries[..k] + bs[i].entries[k + 1..]);
  }

  function Without(rs: seq<Rec>, r: Rec): seq<Rec>
    requires r in rs
  {
    Drop(rs, IndexOf(rs, r))
  }

  /** The list without the entry, if it is there at all. */
  function Sans(rs: seq<Rec>, r: Option<Rec>): seq<Rec> {
    if r.Some? && r.value in rs then Without(rs, r.value) else rs
  }

  // ---------------------------------------------------------------- the name index

  ghost predicate DistinctNames(rs: seq<Rec>) {
    forall i, j | 0 <= i < j < |rs| :: rs[i].name != rs[j].name
  }

  /** `byName` finds exactly the listed entries. */
  ghost predicate Indexed(rs: seq<Rec>, byName: map<Bytes, Rec>) {
    && DistinctNames(rs)
    && (forall i | 0 <= i < |rs| :: rs[i].name in byName && byName[rs[i].name] == rs[i])
    && (forall n | n in byName :: byName[n].name == n && byName[n] in rs)
  }

  lemma IndexAdd(rs: seq<Rec>, byName: map<Bytes, Rec>, r: Rec)
    requires Indexed(rs, byName) && r.name !in byName
    ensures Indexed(rs + [r], byName[r.name := r])
  {
    var byName' := byName[r.name := r];
    forall n | n in byName' ensures byName'[n].name == n && byName'[n] in rs + [r] {
      if n == r.name { assert (rs + [r])[|rs|] == r; }
    }
  }

  /** Dropping entry `k` drops the entry with its name and no other. */
  lemma DropMembers(rs: seq<Rec>, k: nat, r: Rec)
    requires DistinctNames(rs) && k < |rs|
    ensures r in Drop(rs, k) <==> r in rs && r.name != rs[k].name
  {
    hide DistinctNames;
    if r in rs && r.name != rs[k].name {
      var i :| 0 <= i < |rs| && rs[i] == r;
      assert Drop(rs, k)[if i < k then i else i - 1] == r;
    }
    if r in Drop(rs, k) {
      var i :| 0 <= i < |rs| - 1 && Drop(rs, k)[i] == r;
      Apart(rs, if i < k then i else i + 1, k);
    }
  }

  lemma Apart(rs: seq<Rec>, i: nat, j: nat)
    requires DistinctNames(rs) && i < |rs| && j < |rs| && i != j
    ensures rs[i].name != rs[j].name
  {
  }

  lemma DropDistinct(rs: seq<Rec>, k: nat)
    requires DistinctNames(rs) && k < |rs|
    ensures DistinctNames(Drop(rs, k))
  {
    assert forall i | 0 <= i < |rs| - 1 :: Drop(rs, k)[i] == rs[if i < k then i else i + 1];
  }

  lemma IndexDrop(rs: seq<Rec>, byName: map<Bytes, Rec>, k: nat)
    requires Indexed(rs, byName) && k < |rs|
    ensures Indexed(Drop(rs, k), byName - {rs[k].name})
  {
    hide Drop;
    DropDistinct(rs, k);
    forall r: Rec ensures r in Drop(rs, k) <==> r in rs && r.name != rs[k].name {
      DropMembers(rs, k, r);
    }
  }

  /** The first listed entry with a given name. */
  function Scan(rs: seq<Rec>, n: Bytes): Option<Rec> {
    if rs == [] then None else if rs[0].name == n then Some(rs[0]) else Scan(rs[1..], n)
  }

  lemma {:induction false} ScanFinds(rs: seq<Rec>, n: Bytes)
    ensures Scan(rs, n).None? ==> forall r | r in rs :: r.name != n
    ensures Scan(rs, n).Some? ==> Scan(rs, n).value in rs && Scan(rs, n).value.name == n
  {
    if rs == [] {
    } else {
      ScanFinds(rs[1..], n);
    }
  }

  /** The index answers as a scan of the list does. */
  lemma ScanIsLookup(rs: seq<Rec>, byName: map<Bytes, Rec>, n: Bytes)
    requires Indexed(rs, byName)
    ensures Scan(rs, n) == if n in byName then Some(byName[n]) else None
  {
    ScanFinds(rs, n);
  }

  // ---------------------------------------------------------------- the identifier index

  ghost predicate DistinctUuids(rs: seq<Rec>) {
    forall i, j | 0 <= i < j < |rs| :: rs[i].uuid != rs[j].uuid
  }

  ghost predicate UuidIndexed(rs: seq<Rec>, byUuid: map<Uuid, Rec>) {
    && DistinctUuids(rs)
    && (forall i | 0 <= i < |rs| :: rs[i].uuid in byUuid && byUuid[rs[i].uuid] == rs[i])
    && (forall u | u in byUuid :: byUuid[u].uuid == u && byUuid[u] in rs)
  }

  /** Every answer of the index is right, though with repeated identifiers it may lack one. */
  ghost predicate UuidSound(rs: seq<Rec>, byUuid: map<Uuid, Rec>) {
    forall u | u in byUuid :: byUuid[u].uuid == u && byUuid[u] in rs
  }

  /** Forgetting an entry removes it from the index only if the index still leads to it. */
  function Forget(byUuid: map<Uuid, Rec>, r: Rec): map<Uuid, Rec> {
    if r.uuid in byUuid && byUuid[r.uuid] == r then byUuid - {r.uuid} else byUuid
  }

  lemma UuidSoundAdd(rs: seq<Rec>, byUuid: map<Uuid, Rec>, r: Rec)
    requires UuidSound(rs, byUuid)
    ensures UuidSound(rs + [r], byUuid[r.uuid := r])
  {
    assert (rs + [r])[|rs|] == r;
  }

  lemma UuidSoundDrop(rs: seq<Rec>, byUuid: map<Uuid, Rec>, k: nat)
    requires UuidSound(rs, byUuid) && DistinctNames(rs) && k < |rs|
    ensures UuidSound(Drop(rs, k), Forget(byUuid, rs[k]))
  {
    hide Drop;
    var byUuid' := Forget(byUuid, rs[k]);
    forall u | u in byUuid' ensures byUuid'[u].uuid == u && byUuid'[u] in Drop(rs, k) {
      var i :| 0 <= i < |rs| && rs[i] == byUuid[u];
      if i != k { Apart(rs, i, k); }
      DropMembers(rs, k, byUuid[u]);
    }
  }

  /** With an exact index, an identifier that no name is bound to is not in it. */
  lemma UuidFree(rs: seq<Rec>, byName: map<Bytes, Rec>, byUuid: map<Uuid, Rec>, u: Uuid)
    requires Indexed(rs, byName) && UuidSound(rs, byUuid) && forall n | n in byName :: byName[n].uuid != u
    ensures u !in byUuid
  {
  }

  lemma UuidIndexAdd(rs: seq<Rec>, byUuid: map<Uuid, Rec>, r: Rec)
    requires UuidIndexed(rs, byUuid) && r.uuid !in byUuid
    ensures UuidIndexed(rs + [r], byUuid[r.uuid := r])
  {
    var byUuid' := byUuid[r.uuid := r];
    forall u | u in byUuid' ensures byUuid'[u].uuid == u && byUuid'[u] in rs + [r] {
      if u == r.uuid { assert (rs + [r])[|rs|] == r; }
    }
  }

  lemma UuidDropMembers(rs: seq<Rec>, k: nat, r: Rec)
    requires DistinctUuids(rs) && k < |rs|
    ensures r in Drop(rs, k) <==> r in rs && r.uuid != rs[k].uuid
  {
    hide DistinctUuids;
    if r in rs && r.uuid != rs[k].uuid {
      var i :| 0 <= i < |rs| && rs[i] == r;
      assert Drop(rs, k)[if i < k then i else i - 1] == r;
    }
    if r in Drop(rs, k) {
      var i :| 0 <= i < |rs| - 1 && Drop(rs, k)[i] == r;
      UuidsApart(rs, if i < k then i else i + 1, k);
    }
  }

  lemma UuidsApart(rs: seq<Rec>, i: nat, j: nat)
    requires DistinctUuids(rs) && i < |rs| && j < |rs| && i != j
    ensures rs[i].uuid != rs[j].uuid
  {
  }

  lemma UuidDropDistinct(rs: seq<Rec>, k: nat)
    requires DistinctUuids(rs) && k < |rs|
    ensures DistinctUuids(Drop(rs, k))
  {
    assert forall i | 0 <= i < |rs| - 1 :: Drop(rs, k)[i] == rs[if i < k then i else i + 1];
  }

  lemma UuidIndexDrop(rs: seq<Rec>, byUuid: map<Uuid, Rec>, k: nat)
    requires UuidIndexed(rs, byUuid) && k < |rs|
    ensures UuidIndexed(Drop(rs, k), Forget(byUuid, rs[k]))
  {
    hide Drop;
    UuidDropDistinct(rs, k);
    forall r: Rec ensures r in Drop(rs, k) <==> r in rs && r.uuid != rs[k].uuid {
      UuidDropMembers(rs, k, r);
    }
  }

  // ---------------------------------------------------------------- symlink records

  const PATH_MAX: nat := 1024

  /** A symlink record keeps its own length in a single byte. */
  datatype Link = Link(uuid: Uuid, target: Bytes, totalLen: nat)

  function MakeLink(u: Uuid, target: Bytes): Link {
    Link(u, target, (|target| + 20) % 0x100)
  }

  function SumLinks(ls: seq<Link>): nat {
    if ls == [] then 0 else SumLinks(ls[..|ls| - 1]) + ls[|ls| - 1].totalLen
  }

  lemma {:induction false} SumLinksConcat(a: seq<Link>, b: seq<Link>)
    ensures SumLinks(a + b) == SumLinks(a) + SumLinks(b)
    decreases |b|
  {
    if b == [] {
      assert a + b == a;
    } else {
      assert (a + b)[..|a + b| - 1] == a + b[..|b| - 1];
      SumLinksConcat(a, b[..|b| - 1]);
    }
  }

  lemma SumLinksAdd(ls: seq<Link>, l: Link)
    ensures SumLinks(ls + [l]) == SumLinks(ls) + l.totalLen
  {
    assert (ls + [l])[..|ls|] == ls;
  }

  lemma SumLinksDrop(ls: seq<Link>, k: nat)
    requires k < |ls|
    ensures SumLinks(ls[..k] + ls[k + 1..]) == SumLinks(ls) - ls[k].totalLen
  {
    hide SumLinks;
    assert ls == ls[..k] + [ls[k]] + ls[k + 1..];
    SumLinksConcat(ls[..k] + [ls[k]], ls[k + 1..]);
    SumLinksAdd(ls[..k], ls[k]);
    SumLinksConcat(ls[..k], ls[k + 1..]);
  }

  /** The target recorded for `u`: that of the first record with this identifier. */
  function TargetOf(ls: seq<Link>, u: Uuid): Option<Bytes> {
    if ls == [] then None else if ls[0].uuid == u then Some(ls[0].target) else TargetOf(ls[1..], u)
  }

  lemma {:induction false} TargetOfConcat(a: seq<Link>, b: seq<Link>, u: Uuid)
    ensures TargetOf(a + b, u) == if TargetOf(a, u).Some? then TargetOf(a, u) else TargetOf(b, u)
  {
    if a == [] {
      assert a + b == b;
    } else {
      assert (a + b)[1..] == a[1..] + b;
      TargetOfConcat(a[1..], b, u);
    }
  }

  lemma {:induction false} TargetOfNone(ls: seq<Link>, u: Uuid)
    ensures TargetOf(ls, u).None? <==> forall i | 0 <= i < |ls| :: ls[i].uuid != u
  {
    if ls == [] {
    } else {
      TargetOfNone(ls[1..], u);
    }
  }

  /** The records without the first one for `u`. */
  function Unlink(ls: seq<Link>, u: Uuid): seq<Link> {
    if ls == [] then [] else if ls[0].uuid == u then ls[1..] else [ls[0]] + Unlink(ls[1..], u)
  }

  /** The records whose length fits a byte. */
  predicate ShortLinks(ls: seq<Link>) {
    forall l | l in ls :: |l.target| <= 235
  }

  lemma {:induction false} UnlinkShort(ls: seq<Link>, u: Uuid)
    requires ShortLinks(ls)
    ensures ShortLinks(Unlink(ls, u)) && (TargetOf(ls, u).Some? ==> |TargetOf(ls, u).value| <= 235)
  {
    if ls == [] {
    } else {
      UnlinkShort(ls[1..], u);
    }
  }

  lemma {:induction false} UnlinkLength(ls: seq<Link>, u: Uuid)
    ensures |Unlink(ls, u)| <= |ls|
  {
    if ls == [] {
    } else {
      UnlinkLength(ls[1..], u);
    }
  }

  /** Unlinking `u` does not change what is recorded for anything else. */
  lemma {:induction false} UnlinkKeepsOthers(ls: seq<Link>, u: Uuid, v: Uuid)
    requires u != v
    ensures TargetOf(Unlink(ls, u), v) == TargetOf(ls, v)
  {
    if ls != [] && ls[0].uuid != u {
      UnlinkKeepsOthers(ls[1..], u, v);
      assert Unlink(ls, u)[1..] == Unlink(ls[1..], u);
    }
  }

  lemma {:induction false} UnlinkSome(ls: seq<Link>, u: Uuid)
    requires TargetOf(ls, u).Some?
    ensures |Unlink(ls, u)| == |ls| - 1
  {
    if ls[0].uuid == u {
    } else {
      UnlinkSome(ls[1..], u);
    }
  }

  lemma {:induction false} UnlinkNothing(ls: seq<Link>, u: Uuid)
    requires TargetOf(ls, u).None?
    ensures Unlink(ls, u) == ls
  {
    if ls == [] {
    } else {
      UnlinkNothing(ls[1..], u);
    }
  }

  /** Dropping the first record for `u`, found at `k`. */
  lemma {:induction false} UnlinkAt(ls: seq<Link>, u: Uuid, k: nat)
    requires k < |ls| && ls[k].uuid == u && forall i | 0 <= i < k :: ls[i].uuid != u
    ensures ls[..k] + ls[k + 1..] == Unlink(ls, u)
    ensures TargetOf(ls, u) == Some(ls[k].target)
  {
    if k == 0 {
    } else {
      UnlinkAt(ls[1..], u, k - 1);
      assert ls[..k] + ls[k + 1..] == [ls[0]] + (ls[1..][..k - 1] + ls[1..][k..]);
    }
  }

  lemma TargetOfAdded(ls: seq<Link>, l: Link, v: Uuid)
    ensures TargetOf(ls + [l], v)
         == if TargetOf(ls, v).Some? then TargetOf(ls, v) else if l.uuid == v then Some(l.target) else None
  {
    TargetOfConcat(ls, [l], v);
  }
}
