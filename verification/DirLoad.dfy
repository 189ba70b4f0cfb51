/** Loading a directory from its files, and what a stored directory is after it has been loaded again. */
module DirLoad {
  import opened Prelude
  import opened DirValues
  import opened DirBytes
  import opened Dirnode
  import opened DirStore
  import opened DirRun

  /** The indexes after entering `rs` one by one; a later entry replaces an earlier one with the same key. */
  function PutAll(byName: map<Bytes, Rec>, rs: seq<Rec>): map<Bytes, Rec> {
    if rs == [] then byName else
      var r := rs[|rs| - 1];
      PutAll(byName, rs[..|rs| - 1])[r.name := r]
  }

  function PutAllUuids(byUuid: map<Uuid, Rec>, rs: seq<Rec>): map<Uuid, Rec> {
    if rs == [] then byUuid else
      var r := rs[|rs| - 1];
      PutAllUuids(byUuid, rs[..|rs| - 1])[r.uuid := r]
  }

  lemma NothingPut()
    ensures PutAll(map[], []) == map[] && PutAllUuids(map[], []) == map[]
  {
  }

  lemma PutNext(rs: seq<Rec>, r: Rec)
    ensures PutAll(map[], rs + [r]) == PutAll(map[], rs)[r.name := r]
    ensures PutAllUuids(map[], rs + [r]) == PutAllUuids(map[], rs)[r.uuid := r]
  {
    assert (rs + [r])[..|rs|] == rs;
  }

  /** `bucket_load_from_buffer`: reads the bucket's entries into the bucket, the list and the indexes. */
  method LoadBucket(d: Dirnode, i: nat, data: Bytes) returns (ok: bool)
    requires i < |d.buckets| && d.buckets[i].entries == []
    requires d.byName == PutAll(map[], d.entries) && d.byUuid == PutAllUuids(map[], d.entries)
    modifies d`buckets, d`entries, d`byName, d`byUuid
    ensures d.byName == PutAll(map[], d.entries) && d.byUuid == PutAllUuids(map[], d.entries)
    ensures var recs := ParseRecs(data, old(d.buckets)[i].numItems, []);
      && ok == recs.Some?
      && (ok ==> d.buckets == old(d.buckets)[i := old(d.buckets)[i].(entries := recs.value.0)])
      && (ok ==> d.entries == old(d.entries) + recs.value.0)
  {
    hide ParseRec, PutAll, PutAllUuids;
    var n := d.buckets[i].numItems;
    var rest, got := data, [];
    ok := true;
    assert d.entries + [] == d.entries;
    assert d.buckets[i := d.buckets[i].(entries := [])] == d.buckets;
    for k := 0 to n
      invariant ParseRecs(data, n, []) == ParseRecs(rest, n - k, got)
      invariant d.buckets == old(d.buckets)[i := old(d.buckets)[i].(entries := got)]
      invariant d.entries == old(d.entries) + got
      invariant d.byName == PutAll(map[], d.entries) && d.byUuid == PutAllUuids(map[], d.entries)
    {
      var p := ParseRec(rest);
      if p.None? {
        return false;
      }
      var r := p.value.0;
      rest, got := p.value.1, got + [r];
      d.buckets := d.buckets[i := d.buckets[i].(entries := got)];
      d.byName := d.byName[r.name := r];
      d.byUuid := d.byUuid[r.uuid := r];
      PutNext(d.entries, r);
      d.entries := d.entries + [r];
    }
  }

  /** `__load_other_buckets`: the file of every bucket but the first is read and its tag compared. */
  method LoadOtherBuckets(d: Dirnode, files: map<Uuid, File>) returns (ok: bool)
    requires |d.buckets| > 0 && forall i | 1 <= i < |d.buckets| :: d.buckets[i].entries == []
    requires d.entries == d.buckets[0].entries
    requires d.byName == PutAll(map[], d.entries) && d.byUuid == PutAllUuids(map[], d.entries)
    modifies d`buckets, d`entries, d`byName, d`byUuid
    ensures var others := LoadOthers(files, old(d.buckets), 1);
      && ok == others.Some?
      && (ok ==> d.buckets == others.value)
    ensures ok ==> forall i | 1 <= i < |d.buckets| :: Backed(files, d.buckets[i])
    ensures ok ==> d.entries == Gather(d.buckets)
    ensures ok ==> d.byName == PutAll(map[], d.entries) && d.byUuid == PutAllUuids(map[], d.entries)
  {
    hide ParseRecs, PutAll, PutAllUuids, Gather;
    LoadedBacked(files, d.buckets, 1);
    var i := 1;
    assert d.entries == Gather(d.buckets[..1]) by { GatherFirst(d.buckets); }
    while i < |d.buckets|
      invariant 1 <= i <= |d.buckets|
      invariant forall j | i <= j < |d.buckets| :: d.buckets[j].entries == []
      invariant LoadOthers(files, old(d.buckets), 1) == LoadOthers(files, d.buckets, i)
      invariant d.entries == Gather(d.buckets[..i])
      invariant d.byName == PutAll(map[], d.entries) && d.byUuid == PutAllUuids(map[], d.entries)
      decreases |d.buckets| - i
    {
      var u, bs := d.buckets[i].uuid, d.buckets;
      if u !in files {
        return false;
      }
      var loaded := LoadBucket(d, i, files[u].data);
      if !loaded {
        return false;
      }
      d.buckets := d.buckets[i := d.buckets[i].(onDisk := true)];
      assert d.buckets == bs[i := bs[i].(entries := d.buckets[i].entries, onDisk := true)];
      if d.buckets[i].mac != files[u].mac {
        return false;
      }
      assert d.entries == Gather(d.buckets[..i + 1]) by {
        AppendBucket(d.buckets[..i], d.buckets[i]);
        assert d.buckets[..i + 1] == d.buckets[..i] + [d.buckets[i]];
        assert d.buckets[..i] == bs[..i];
      }
      i := i + 1;
    }
    assert d.buckets[..i] == d.buckets;
    ok := true;
  }

  lemma GatherFirst(bs: seq<Bucket>)
    requires |bs| > 0
    ensures Gather(bs[..1]) == bs[0].entries
  {
    assert bs[..1] == [] + [bs[0]];
    AppendBucket([], bs[0]);
    assert Gather([]) == [];
  }

  method ParseSymlinks(d: Dirnode, data: Bytes) returns (rest: Option<Bytes>)
    requires d.symlinks == []
    modifies d`symlinks
    ensures var links := ParseLinks(data, d.symlinkCount, []);
      && rest.Some? == links.Some?
      && (rest.Some? ==> links.value == (d.symlinks, rest.value))
  {
    hide ParseLink;
    var at := data;
    for k := 0 to d.symlinkCount
      invariant ParseLinks(data, d.symlinkCount, []) == ParseLinks(at, d.symlinkCount - k, d.symlinks)
    {
      var p := ParseLink(at);
      if p.None? {
        return None;
      }
      at := p.value.1;
      d.symlinks := d.symlinks + [p.value.0];
    }
    rest := Some(at);
  }

  method ParseBucketRecords(d: Dirnode, data: Bytes) returns (rest: Option<Bytes>)
    requires d.buckets == []
    modifies d`buckets
    ensures var records := ParseRecords(data, d.bucketCount, []);
      && rest.Some? == records.Some?
      && (rest.Some? ==> records.value == (d.buckets, rest.value))
    ensures forall b | b in d.buckets :: b.entries == []
  {
    hide ParseRecord;
    var at := data;
    for k := 0 to d.bucketCount
      invariant ParseRecords(data, d.bucketCount, []) == ParseRecords(at, d.bucketCount - k, d.buckets)
      invariant forall b | b in d.buckets :: b.entries == []
    {
      if |at| < 40 {
        return None;
      }
      assert ParseRecord(at).entries == [] by { NoEntries(at); }
      d.buckets := d.buckets + [ParseRecord(at)];
      at := at[40..];
    }
    rest := Some(at);
  }

  lemma NoEntries(at: Bytes)
    requires |at| >= 40
    ensures ParseRecord(at).entries == []
  {
  }

  /** The main record: links, bucket records, attribute table and the first bucket's entries. */
  method LoadMain(data: Bytes, sizeOf: Bytes -> Option<nat>) returns (d: Dirnode?)
    ensures d == null <==> ParseMain(data, sizeOf).None?
    ensures d != null ==> fresh(d) && ParseMain(data, sizeOf) == Some(ImageOf(d)) && d.lastFailed == None
    ensures d != null ==> |d.buckets| > 0 && forall i | 1 <= i < |d.buckets| :: d.buckets[i].entries == []
    ensures d != null ==> d.entries == d.buckets[0].entries
    ensures d != null ==> d.byName == PutAll(map[], d.entries) && d.byUuid == PutAllUuids(map[], d.entries)
  {
    hide ParseLinks, ParseRecords, ParseRecs, ParseHeader, PutAll, PutAllUuids;
    NothingPut();
    if |data| < HEADER_SIZE {
      return null;
    }
    var h := ParseHeader(data);
    var dir := new Dirnode.Parsed(h.me, h.root, h.symlinkCount, h.symlinkBuflen, h.entryCount, h.entryBuflen,
                                  h.bucketCount);
    var rest := ParseSymlinks(dir, data[HEADER_SIZE..]);
    if rest.None? {
      return null;
    }
    rest := ParseBucketRecords(dir, rest.value);
    if rest.None? || dir.buckets == [] {
      return null;
    }
    var size := sizeOf(rest.value);
    if size.None? || size.value > |rest.value| {
      return null;
    }
    dir.attributes := rest.value[..size.value];
    var ok := LoadBucket(dir, 0, rest.value[size.value..]);
    if !ok {
      return null;
    }
    d := dir;
  }

  /** `dirnode_load`: fails exactly when the files do not parse or a bucket's tag is not the one in its record. */
  method Load(files: map<Uuid, File>, u: Uuid, sizeOf: Bytes -> Option<nat>) returns (d: Dirnode?)
    ensures d == null <==> ParseDir(files, u, sizeOf).None?
    ensures d != null ==> fresh(d) && ParseDir(files, u, sizeOf) == Some(ImageOf(d))
    ensures d != null ==> forall i | 1 <= i < |d.buckets| ::
      d.buckets[i].uuid in files && files[d.buckets[i].uuid].mac == d.buckets[i].mac
    ensures d != null ==> d.entries == Gather(d.buckets) && d.lastFailed == None
    ensures d != null ==> d.byName == PutAll(map[], d.entries) && d.byUuid == PutAllUuids(map[], d.entries)
  {
    hide ParseMain, LoadOthers, Gather, PutAll, PutAllUuids;
    if u !in files {
      return null;
    }
    d := LoadMain(files[u].data, sizeOf);
    if d != null {
      var ok := LoadOtherBuckets(d, files);
      if !ok {
        d := null;
      }
    }
  }

  // ---------------------------------------------------------------- the loaded directory

  lemma {:induction false} Once(rs: seq<Rec>, r: Rec)
    requires DistinctNames(rs)
    ensures multiset(rs)[r] <= 1
  {
    if rs == [] {
    } else {
      var n := |rs| - 1;
      assert rs == rs[..n] + [rs[n]];
      Once(rs[..n], r);
      if r == rs[n] { assert r !in rs[..n]; }
    }
  }

  lemma Twice(rs: seq<Rec>, i: nat, j: nat)
    requires i < j < |rs| && rs[i] == rs[j]
    ensures multiset(rs)[rs[i]] >= 2
  {
    assert rs == rs[..j] + rs[j..];
    assert rs[..j][i] == rs[i] && rs[j..][0] == rs[i];
    assert rs[i] in multiset(rs[..j]) && rs[i] in multiset(rs[j..]);
  }

  lemma SameMembers(rs: seq<Rec>, rs': seq<Rec>, r: Rec)
    requires multiset(rs) == multiset(rs')
    ensures r in rs <==> r in rs'
  {
    assert r in multiset(rs) <==> r in multiset(rs');
  }

  /** Distinctness of names does not depend on the order. */
  lemma SameDistinct(rs: seq<Rec>, rs': seq<Rec>)
    requires DistinctNames(rs) && multiset(rs) == multiset(rs')
    ensures DistinctNames(rs')
  {
    forall i, j | 0 <= i < j < |rs'| ensures rs'[i].name != rs'[j].name {
      SameMembers(rs, rs', rs'[i]);
      SameMembers(rs, rs', rs'[j]);
      if rs'[i] == rs'[j] {
        Twice(rs', i, j);
        Once(rs, rs'[i]);
      }
    }
  }

  lemma {:induction false} PutAllIndexes(rs: seq<Rec>)
    requires DistinctNames(rs)
    ensures Indexed(rs, PutAll(map[], rs))
  {
    if rs == [] {
    } else {
      var n := |rs| - 1;
      PutAllIndexes(rs[..n]);
      assert rs == rs[..n] + [rs[n]];
      IndexAdd(rs[..n], PutAll(map[], rs[..n]), rs[n]);
    }
  }

  /** Lists with the same entries have the same index. */
  lemma SameIndex(rs: seq<Rec>, rs': seq<Rec>, m: map<Bytes, Rec>, m': map<Bytes, Rec>)
    requires Indexed(rs, m) && Indexed(rs', m') && multiset(rs) == multiset(rs')
    ensures m == m'
  {
    forall r: Rec ensures r in rs <==> r in rs' { SameMembers(rs, rs', r); }
    forall n: Bytes ensures n in m <==> n in m' {
      if n in m { assert m[n] in rs'; }
      if n in m' { assert m'[n] in rs; }
    }
    forall n | n in m ensures m[n] == m'[n] {
      assert m[n] in rs';
    }
  }

  lemma {:induction false} GatherSizes(bs: seq<Bucket>)
    requires forall i | 0 <= i < |bs| :: BucketSound(bs[i])
    ensures SumLen(Gather(bs)) == SumSizes(bs) && |Gather(bs)| == SumItems(bs)
  {
    hide SumLen;
    if bs == [] {
      assert SumLen([]) == 0 by { NoLength(); }
    } else {
      var n := |bs| - 1;
      GatherSizes(bs[..n]);
      SumLenConcat(Gather(bs[..n]), bs[n].entries);
    }
  }

  lemma NoLength()
    ensures SumLen([]) == 0
  {
  }

  /** The entries in bucket order make the same directory. */
  lemma GatherStored(rs: seq<Rec>, bs: seq<Bucket>)
    requires Stored(rs, bs)
    ensures Stored(Gather(bs), bs) && SumLen(Gather(bs)) == SumLen(rs) && |Gather(bs)| == |rs|
  {
    hide SumLen, Gather, SumItems, SumSizes, BucketSound;
    GatherSizes(bs);
  }

  lemma SameNamesOk(rs: seq<Rec>, rs': seq<Rec>)
    requires NamesOk(rs) && multiset(rs) == multiset(rs')
    ensures NamesOk(rs')
  {
    hide NameOk;
    forall r | r in rs' ensures NameOk(r.name) { SameMembers(rs, rs', r); }
  }

  lemma {:induction false} PutAllUuidsSound(rs: seq<Rec>)
    ensures UuidSound(rs, PutAllUuids(map[], rs))
  {
    if rs == [] {
      assert PutAllUuids(map[], rs) == map[];
    } else {
      var n := |rs| - 1;
      PutAllUuidsSound(rs[..n]);
      assert rs == rs[..n] + [rs[n]];
      UuidSoundAdd(rs[..n], PutAllUuids(map[], rs[..n]), rs[n]);
    }
  }

  lemma {:induction false} PutAllUuidsIndexes(rs: seq<Rec>)
    requires DistinctUuids(rs)
    ensures UuidIndexed(rs, PutAllUuids(map[], rs))
  {
    if rs == [] {
      assert PutAllUuids(map[], rs) == map[];
    } else {
      var n := |rs| - 1;
      PutAllUuidsIndexes(rs[..n]);
      assert rs == rs[..n] + [rs[n]];
      UuidIndexAdd(rs[..n], PutAllUuids(map[], rs[..n]), rs[n]);
    }
  }

  lemma SameDistinctUuids(rs: seq<Rec>, rs': seq<Rec>)
    requires DistinctNames(rs) && DistinctUuids(rs) && multiset(rs) == multiset(rs')
    ensures DistinctUuids(rs')
  {
    hide DistinctNames;
    forall i, j | 0 <= i < j < |rs'| ensures rs'[i].uuid != rs'[j].uuid {
      SameMembers(rs, rs', rs'[i]);
      SameMembers(rs, rs', rs'[j]);
      if rs'[i] == rs'[j] {
        Twice(rs', i, j);
        Once(rs, rs'[i]);
      }
    }
  }

  /** A directory with the same image is consistent and has the same names. */
  lemma SameImage(d: Dirnode, e: Dirnode)
    requires d.Valid() && ImageOf(e) == ImageOf(d) && e.entries == Gather(e.buckets) && e.lastFailed == None
    requires e.byName == PutAll(map[], e.entries) && e.byUuid == PutAllUuids(map[], e.entries)
    ensures e.Valid() && e.byName == d.byName && multiset(e.entries) == multiset(d.entries)
    ensures d.UuidsExact() ==> e.UuidsExact()
  {
    hide Indexed, NamesOk, HasBucket, Gather, SumLen, SumLinks, LinksSound, BucketsSound, SumItems, SumSizes, PutAll,
      DistinctNames, PutAllUuids, UuidSound, DistinctUuids;
    GatherStored(d.entries, d.buckets);
    assert DistinctNames(d.entries) by { IndexedDistinct(d.entries, d.byName); }
    SameDistinct(d.entries, e.entries);
    PutAllIndexes(e.entries);
    PutAllUuidsSound(e.entries);
    SameIndex(d.entries, e.entries, d.byName, e.byName);
    SameNamesOk(d.entries, e.entries);
    if d.UuidsExact() {
      SameDistinctUuids(d.entries, e.entries);
      PutAllUuidsIndexes(e.entries);
    }
  }

  lemma StoredNames(me: Uuid, bs: seq<Bucket>, macs: nat -> Mac)
    ensures FileNames(me, StoredBuckets(bs, macs)) <= FileNames(me, bs) && |StoredBuckets(bs, macs)| <= |bs|
  {
    var left, bs' := Survivors(bs), StoredBuckets(bs, macs);
    forall u | u in FileNames(me, bs') ensures u in FileNames(me, bs) {
      if u != me {
        var j :| 0 <= j < |bs'| && bs'[j].uuid == u;
        assert bs'[j] == if j == 0 then left[0].(isDirty := false) else Rewritten(left[j], macs(j));
        var i := SurvivorIs(bs, left[j]);
        assert bs[i].uuid == u;
      }
    }
  }

  /** Files outside a set of names are as they were. */
  ghost predicate SameOutside(files: map<Uuid, File>, files': map<Uuid, File>, names: set<Uuid>) {
    forall u: Uuid | u !in names :: (u in files' <==> u in files) && (u in files ==> files'[u] == files[u])
  }

  lemma SyncElsewhere(files: map<Uuid, File>, files': map<Uuid, File>, names: set<Uuid>, me: Uuid, bs: seq<Bucket>)
    requires InSync(files, bs) && SameOutside(files, files', names) && FileNames(me, bs) !! names
    ensures InSync(files', bs)
  {
    hide RecsBytes;
    forall i | 1 <= i < |bs| ensures bs[i].isDirty || Pinned(files', bs[i]) {
      assert bs[i].isDirty || Pinned(files, bs[i]);
      assert bs[i].uuid in FileNames(me, bs);
    }
  }

  /** A directory is what its files describe. */
  ghost predicate OnDisk(d: Dirnode, files: map<Uuid, File>, sizeOf: Bytes -> Option<nat>)
    reads d
  {
    ParseDir(files, d.myUuid, sizeOf) == Some(ImageOf(d))
  }

  /**
   Storing a directory and loading it again. What is loaded is what the written files describe, and it is the same
   directory exactly when that is within the widths of the stored form. It is then consistent, has the same map from
   names to types and identifiers and the same symlinks, and its files are in step.
   */
  method StoreThenLoad(d: Dirnode, files: map<Uuid, File>, macs: nat -> Mac, mainMac: Mac, sizeOf: Bytes -> Option<nat>)
    returns (files': map<Uuid, File>, e: Dirnode?)
    requires d.Valid() && InSync(files, d.buckets) && SelfDelimiting(sizeOf, d.attributes)
    modifies d`buckets, d`bucketCount
    ensures d.Valid() && InSync(files', d.buckets) && (old(Storable(d)) ==> Storable(d))
    ensures Within(old(ShapeOf(d)), ShapeOf(d), 0, {})
    ensures OnDisk(d, files', sizeOf) <==> Storable(d)
    ensures e == null <==> ParseDir(files', d.myUuid, sizeOf).None?
    ensures e != null ==> fresh(e) && ParseDir(files', d.myUuid, sizeOf) == Some(ImageOf(e))
    ensures (e != null && ImageOf(e) == ImageOf(d)) <==> Storable(d)
    ensures Storable(d) ==> e.Valid() && View(e) == View(d) && multiset(e.entries) == multiset(d.entries)
    ensures Storable(d) ==> ShapeOf(e) == ShapeOf(d) && (d.UuidsExact() ==> e.UuidsExact())
    ensures old(Tidy(d)) ==> Tidy(d) && (Storable(d) ==> Tidy(e))
    ensures SameOutside(files, files', old(FilesOf(d)))
  {
    hide ParseDir, Gather, PutAll, PutAllUuids, Stored, Indexed, InSync, LinksShort, LinksSound, SelfDelimiting,
      NamesOk, UuidSound, UuidIndexed, StoredBuckets, SumLinks;
    files' := Store(d, files, macs, mainMac, sizeOf);
    StoredNames(d.myUuid, old(d.buckets), macs);
    e := Load(files', d.myUuid, sizeOf);
    if Storable(d) { SameImage(d, e); }
  }

  /**
   A load refuses stale buckets: after a store, a file with another tag in the place of any bucket's file makes the
   load fail.
   */
  method StoreThenStale(d: Dirnode, files: map<Uuid, File>, macs: nat -> Mac, mainMac: Mac,
                        sizeOf: Bytes -> Option<nat>, i: nat, stale: File)
    returns (e: Dirnode?)
    requires d.Valid() && InSync(files, d.buckets) && SelfDelimiting(sizeOf, d.attributes)
    modifies d`buckets, d`bucketCount
    ensures Storable(d) && 1 <= i < |d.buckets| ==> (stale.mac != d.buckets[i].mac ==> e == null)
  {
    hide ParseDir, Stored, Indexed, InSync, LinksShort, LinksSound, SelfDelimiting, NamesOk, UuidSound, StoredBuckets;
    var files' := Store(d, files, macs, mainMac, sizeOf);
    if 1 <= i < |d.buckets| {
      if Storable(d) && stale.mac != d.buckets[i].mac {
        assert d.buckets[i].uuid != d.myUuid;
        StaleIsRefused(files', d.myUuid, sizeOf, i, stale);
      }
      files' := files'[d.buckets[i].uuid := stale];
    }
    e := Load(files', d.myUuid, sizeOf);
  }

  // ---------------------------------------------------------------- runs, stores and loads in turn

  /** Two directories with files of their own, each in step with them. */
  ghost predicate Ready(l: Dirnode, r: Dirnode, files: map<Uuid, File>, sizeOf: Bytes -> Option<nat>)
    reads l, r
  {
    && l.Valid() && r.Valid() && l != r && FilesOf(l) !! FilesOf(r)
    && InSync(files, l.buckets) && InSync(files, r.buckets)
    && SelfDelimiting(sizeOf, l.attributes) && SelfDelimiting(sizeOf, r.attributes)
  }

  /** The main record and the bucket files of a directory decide what is loaded. */
  lemma OnDiskElsewhere(d: Dirnode, files: map<Uuid, File>, files': map<Uuid, File>, names: set<Uuid>,
                        sizeOf: Bytes -> Option<nat>)
    requires OnDisk(d, files, sizeOf) && SameOutside(files, files', names) && FilesOf(d) !! names
    ensures OnDisk(d, files', sizeOf)
  {
    hide ParseMain, FilesOf;
    var main := ParseMain(files[d.myUuid].data, sizeOf).value;
    LoadedBacked(files, main.buckets, 1);
    OwnNames(d);
    assert forall i | 0 <= i < |main.buckets| :: main.buckets[i].uuid == d.buckets[i].uuid;
    LoadOthersElsewhere(files, files', main.buckets, 1, names);
  }

  lemma OwnNames(d: Dirnode)
    ensures d.myUuid in FilesOf(d) && forall i | 0 <= i < |d.buckets| :: d.buckets[i].uuid in FilesOf(d)
  {
  }

  lemma {:induction false} LoadOthersElsewhere(files: map<Uuid, File>, files': map<Uuid, File>, bs: seq<Bucket>, i: nat,
                                               names: set<Uuid>)
    requires SameOutside(files, files', names) && forall j | 0 <= j < |bs| :: bs[j].uuid !in names
    ensures LoadOthers(files', bs, i) == LoadOthers(files, bs, i)
    decreases |bs| - i
  {
    hide ParseRecs;
    if i < |bs| && bs[i].uuid in files {
      var recs := ParseRecs(files[bs[i].uuid].data, bs[i].numItems, []);
      if recs.Some? {
        LoadOthersElsewhere(files, files', bs[i := bs[i].(entries := recs.value.0, onDisk := true)], i + 1, names);
      }
    }
  }

  /** Storing and loading one directory leaves another, whose files have other names, as it was. */
  lemma Elsewhere(d: Dirnode, files: map<Uuid, File>, files': map<Uuid, File>, names: set<Uuid>)
    requires InSync(files, d.buckets) && SameOutside(files, files', names) && FilesOf(d) !! names
    ensures InSync(files', d.buckets)
  {
    hide InSync, SameOutside, FileNames;
    SyncElsewhere(files, files', names, d.myUuid, d.buckets);
  }

  /** The files describe a directory exactly when that is within the widths of the stored form. */
  ghost predicate Described(d: Dirnode, files: map<Uuid, File>, sizeOf: Bytes -> Option<nat>)
    reads d
  {
    OnDisk(d, files, sizeOf) <==> Storable(d)
  }

  /** Whether the files describe a directory does not depend on files with other names. */
  lemma StillDescribed(d: Dirnode, files: map<Uuid, File>, files': map<Uuid, File>, names: set<Uuid>,
                    sizeOf: Bytes -> Option<nat>)
    requires d.Valid() && SameOutside(files, files', names) && FilesOf(d) !! names
    requires Described(d, files, sizeOf)
    ensures Described(d, files', sizeOf)
  {
    hide ParseDir, SameOutside, FileNames, LinksShort, Indexed, Stored, UuidSound, NamesOk, LinksSound, HasBucket;
    if Storable(d) {
      OnDiskElsewhere(d, files, files', names, sizeOf);
    } else if OnDisk(d, files', sizeOf) {
      ParsedIsStorable(d, files', sizeOf);
    }
  }

  /**
   A store and a load of two directories. The files describe a directory afterwards exactly when that is within the
   widths of the stored form. If both are, they come back as new directories, which are what the files describe; else
   the old ones are kept.
   */
  method StoreBoth(l: Dirnode, r: Dirnode, files: map<Uuid, File>, macs: (Side, nat) -> Mac,
                   sizeOf: Bytes -> Option<nat>)
    returns (ok: bool, files': map<Uuid, File>, l': Dirnode, r': Dirnode)
    requires Ready(l, r, files, sizeOf)
    modifies l`buckets, l`bucketCount, r`buckets, r`bucketCount
    ensures Ready(l', r', files', sizeOf) && Views(l', r') == old(Views(l, r))
    ensures Within(old(ShapeOf(l)), ShapeOf(l'), 0, {}) && Within(old(ShapeOf(r)), ShapeOf(r'), 0, {})
    ensures (old(l.UuidsExact()) ==> l'.UuidsExact()) && (old(r.UuidsExact()) ==> r'.UuidsExact())
    ensures (old(Tidy(l)) ==> Tidy(l')) && (old(Tidy(r)) ==> Tidy(r'))
    ensures Described(l', files', sizeOf) && Described(r', files', sizeOf)
    ensures ok <==> Storable(l') && Storable(r')
    ensures if ok then fresh(l') && fresh(r') else l' == l && r' == r
  {
    hide Indexed, Stored, UuidSound, UuidIndexed, InSync, LinksShort, LinksSound, SelfDelimiting, NamesOk, HasBucket,
      ParseDir, SameOutside, FileNames, SumLinks, ShortLinks;
    ghost var lfs, rfs := FilesOf(l), FilesOf(r);
    var mid, a := StoreThenLoad(l, files, n => macs(Left, n + 1), macs(Left, 0), sizeOf);
    Elsewhere(r, files, mid, lfs);
    var b;
    files', b := StoreThenLoad(r, mid, n => macs(Right, n + 1), macs(Right, 0), sizeOf);
    Elsewhere(l, mid, files', rfs);
    StillDescribed(l, mid, files', rfs, sizeOf);
    ok := Storable(l) && Storable(r);
    if ok { l', r' := a, b; } else { l', r' := l, r; }
  }

  lemma WithinAgain(a: Shape, b: Shape, c: Shape, n: nat, drawn: set<Uuid>)
    requires Within(a, b, n, drawn) && Within(b, c, 0, {})
    ensures Within(a, c, n, drawn)
  {
    hide FileNames;
  }

  /**
   A legal run on two directories, then a store and a load of each. They have exactly the names and symlinks that the
   run left, and so have the files of a directory that is within the widths of the stored form.
   */
  method Epoch(l: Dirnode, r: Dirnode, ops: seq<Op>, files: map<Uuid, File>, macs: (Side, nat) -> Mac,
               sizeOf: Bytes -> Option<nat>)
    returns (ok: bool, files': map<Uuid, File>, l': Dirnode, r': Dirnode)
    requires Ready(l, r, files, sizeOf)
    requires LegalRun(Views(l, r), ops) && FreshNames(FilesOf(l) + FilesOf(r), ops)
    modifies l, r
    ensures Ready(l', r', files', sizeOf) && Views(l', r') == ApplyAll(old(Views(l, r)), ops)
    ensures Within(old(ShapeOf(l)), ShapeOf(l'), |ops|, AllDrawn(ops))
    ensures Within(old(ShapeOf(r)), ShapeOf(r'), |ops|, AllDrawn(ops))
    ensures old(l.UuidsExact() && r.UuidsExact() && NewIds(Views(l, r), ops)) ==> l'.UuidsExact() && r'.UuidsExact()
    ensures old(Tidy(l) && Tidy(r)) && AllModest(ops) ==> Tidy(l') && Tidy(r')
    ensures Described(l', files', sizeOf) && Described(r', files', sizeOf)
    ensures ok <==> Storable(l') && Storable(r')
    ensures if ok then fresh(l') && fresh(r') else l' == l && r' == r
  {
    hide Indexed, Stored, UuidSound, UuidIndexed, InSync, LinksShort, LinksSound, SelfDelimiting, NamesOk, Touched,
      HasBucket, LegalRun, FreshNames, NewIds, FileNames, AllModest, Tidy, Described, Storable, Within;
    ghost var ls, rs := ShapeOf(l), ShapeOf(r);
    Run(l, r, ops);
    ghost var ls', rs' := ShapeOf(l), ShapeOf(r);
    TouchedInSync(files, ls.buckets, l.buckets);
    TouchedInSync(files, rs.buckets, r.buckets);
    SameTable(ls, ls', |ops|, AllDrawn(ops));
    SameTable(rs, rs', |ops|, AllDrawn(ops));
    ok, files', l', r' := StoreBoth(l, r, files, macs, sizeOf);
    WithinAgain(ls, ls', ShapeOf(l'), |ops|, AllDrawn(ops));
    WithinAgain(rs, rs', ShapeOf(r'), |ops|, AllDrawn(ops));
  }

  lemma SameTable(a: Shape, b: Shape, n: nat, drawn: set<Uuid>)
    requires Within(a, b, n, drawn)
    ensures b.attributes == a.attributes
  {
  }

  /** What the files would show of a directory, were it loaded from them. */
  function Recovered(files: map<Uuid, File>, me: Uuid, sizeOf: Bytes -> Option<nat>): Option<Listing> {
    var image := ParseDir(files, me, sizeOf);
    if image.None? then None else Some(Listing(PutAll(map[], Gather(image.value.buckets)), image.value.links))
  }

  lemma RecoveredIs(d: Dirnode, files: map<Uuid, File>, sizeOf: Bytes -> Option<nat>)
    requires d.Valid() && OnDisk(d, files, sizeOf)
    ensures Recovered(files, d.myUuid, sizeOf) == Some(View(d))
  {
    hide ParseDir, Gather, PutAll, Indexed, NamesOk, UuidSound, LinksSound, SumLen, SumLinks, HasBucket, BucketsSound,
      SumItems, SumSizes, DistinctNames;
    var rs := Gather(d.buckets);
    GatherStored(d.entries, d.buckets);
    assert DistinctNames(d.entries) by { IndexedDistinct(d.entries, d.byName); }
    SameDistinct(d.entries, rs);
    PutAllIndexes(rs);
    SameIndex(d.entries, rs, d.byName, PutAll(map[], rs));
  }

  function Joined(runs: seq<seq<Op>>): seq<Op> {
    if runs == [] then [] else Joined(runs[..|runs| - 1]) + runs[|runs| - 1]
  }

  function Front(runs: seq<seq<Op>>, n: nat): seq<seq<Op>> {
    if n < |runs| then runs[..n] else runs
  }

  lemma FrontIs(runs: seq<seq<Op>>, n: nat)
    ensures n <= |runs| ==> Front(runs, n) == runs[..n]
    ensures |runs| <= n ==> Front(runs, n) == runs
  {
  }

  lemma {:induction false} JoinedSplit(runs: seq<seq<Op>>, n: nat) returns (rest: seq<Op>)
    requires n <= |runs|
    ensures Joined(runs) == Joined(runs[..n]) + rest
    decreases |runs| - n
  {
    if n == |runs| {
      assert runs[..n] == runs;
      rest := [];
    } else {
      var more := JoinedSplit(runs, n + 1);
      assert runs[..n + 1][..n] == runs[..n];
      rest := runs[n] + more;
    }
  }

  /** A legal history of runs is legal run by run. */
  lemma NextRun(w: World, used: set<Uuid>, runs: seq<seq<Op>>, n: nat)
    requires n < |runs| && LegalRun(w, Joined(runs)) && FreshNames(used, Joined(runs))
    ensures LegalRun(ApplyAll(w, Joined(runs[..n])), runs[n])
    ensures FreshNames(used + AllDrawn(Joined(runs[..n])), runs[n])
    ensures NewIds(w, Joined(runs)) ==> NewIds(ApplyAll(w, Joined(runs[..n])), runs[n])
    ensures ApplyAll(w, Joined(runs[..n + 1])) == ApplyAll(ApplyAll(w, Joined(runs[..n])), runs[n])
    ensures AllDrawn(Joined(runs[..n + 1])) == AllDrawn(Joined(runs[..n])) + AllDrawn(runs[n])
  {
    hide LegalRun, FreshNames, NewIds, ApplyAll, AllDrawn;
    var before := Joined(runs[..n]);
    var rest := JoinedSplit(runs, n + 1);
    assert runs[..n + 1][..n] == runs[..n];
    assert Joined(runs) == before + (runs[n] + rest);
    LegalParts(w, before, runs[n] + rest);
    LegalParts(ApplyAll(w, before), runs[n], rest);
    FreshParts(used, before, runs[n] + rest);
    FreshParts(used + AllDrawn(before), runs[n], rest);
    if NewIds(w, Joined(runs)) {
      NewIdsParts(w, before, runs[n] + rest);
      NewIdsParts(ApplyAll(w, before), runs[n], rest);
    }
    ApplyAllConcat(w, before, runs[n]);
    AllDrawnConcat(before, runs[n]);
  }

  /** Room for `n` more operations before a count outgrows its field. */
  ghost predicate Roomy(d: Dirnode, n: nat)
    reads d
  {
    Tidy(d) && Spare(ShapeOf(d), n)
  }

  predicate Spare(a: Shape, n: nat) {
    |a.buckets| + n < 0x1_0000 && |a.links| + n < 0x1_0000
  }

  lemma {:induction false} SumLinksBound(ls: seq<Link>)
    requires forall l | l in ls :: LinkOk(l)
    ensures SumLinks(ls) <= 0xff * |ls|
  {
    if ls == [] {
    } else {
      SumLinksBound(ls[..|ls| - 1]);
      assert LinkOk(ls[|ls| - 1]);
    }
  }

  lemma RoomyIsStorable(d: Dirnode)
    requires d.Valid() && Roomy(d, 0)
    ensures Storable(d)
  {
    hide SumLinks, Indexed, Stored, UuidSound, NamesOk, HasBucket, MakeLink;
    assert forall l | l in d.symlinks :: LinkOk(l);
    SumLinksBound(d.symlinks);
  }

  ghost predicate Since(a: Shape, b: Shape, ops: seq<Op>) {
    Within(a, b, |ops|, AllDrawn(ops))
  }

  lemma SinceNext(a: Shape, b: Shape, c: Shape, runs: seq<seq<Op>>, n: nat)
    requires n < |runs| && Since(a, b, Joined(runs[..n])) && Within(b, c, |runs[n]|, AllDrawn(runs[n]))
    ensures Since(a, c, Joined(runs[..n + 1]))
  {
    hide FileNames, AllDrawn;
    assert runs[..n + 1][..n] == runs[..n];
    AllDrawnConcat(Joined(runs[..n]), runs[n]);
  }

  lemma SinceFresh(a: Shape, a': Shape, b: Shape, b': Shape, before: seq<Op>, ops: seq<Op>)
    requires Since(a, a', before) && Since(b, b', before)
    requires FreshNames(FileNames(a.me, a.buckets) + FileNames(b.me, b.buckets) + AllDrawn(before), ops)
    ensures FreshNames(FileNames(a'.me, a'.buckets) + FileNames(b'.me, b'.buckets), ops)
  {
    hide FileNames, AllDrawn, FreshNames;
    FreshAmong(FileNames(a.me, a.buckets) + FileNames(b.me, b.buckets) + AllDrawn(before),
               FileNames(a'.me, a'.buckets) + FileNames(b'.me, b'.buckets), ops);
  }

  /** A directory that had room for a whole history can be stored at every moment of it. */
  lemma SpareIsStorable(a: Shape, d: Dirnode, runs: seq<seq<Op>>, n: nat)
    requires d.Valid() && Tidy(d) && n <= |runs| && Since(a, ShapeOf(d), Joined(runs[..n])) && Spare(a, |Joined(runs)|)
    ensures Storable(d)
  {
    hide FileNames, AllDrawn, Indexed, Stored, UuidSound, NamesOk, HasBucket, LinksSound, Tidy, Storable;
    var rest := JoinedSplit(runs, n);
    RoomyIsStorable(d);
  }

  lemma ModestRun(runs: seq<seq<Op>>, n: nat)
    requires n < |runs| && AllModest(Joined(runs))
    ensures AllModest(runs[n])
  {
    var rest := JoinedSplit(runs, n + 1);
    assert runs[..n + 1][..n] == runs[..n];
    forall op | op in runs[n] ensures Modest(op) { assert op in Joined(runs[..n]) + runs[n]; }
  }

  /** Where a history of runs has got to after `n` of them, from directories of the shapes `ls` and `rs`. */
  ghost predicate Reached(w: World, ls: Shape, rs: Shape, runs: seq<seq<Op>>, n: nat, l: Dirnode, r: Dirnode,
                          files: map<Uuid, File>, sizeOf: Bytes -> Option<nat>)
    requires n <= |runs|
    reads l, r
  {
    && Ready(l, r, files, sizeOf) && Views(l, r) == ApplyAll(w, Joined(runs[..n]))
    && Since(ls, ShapeOf(l), Joined(runs[..n])) && Since(rs, ShapeOf(r), Joined(runs[..n]))
  }

  /** The history `all` is sure to get through, as far as it has got. */
  ghost predicate Sure(ls: Shape, rs: Shape, all: seq<Op>, l: Dirnode, r: Dirnode)
    reads l, r
  {
    AllModest(all) && Spare(ls, |all|) && Spare(rs, |all|) && Tidy(l) && Tidy(r)
  }

  method NextEpoch(ghost w: World, ghost ls: Shape, ghost rs: Shape, runs: seq<seq<Op>>, n: nat, l: Dirnode, r: Dirnode,
                   files: map<Uuid, File>, macs: (Side, nat) -> Mac, sizeOf: Bytes -> Option<nat>)
    returns (ok: bool, files': map<Uuid, File>, l': Dirnode, r': Dirnode)
    requires n < |runs| && Reached(w, ls, rs, runs, n, l, r, files, sizeOf) && LegalRun(w, Joined(runs))
    requires FreshNames(FileNames(ls.me, ls.buckets) + FileNames(rs.me, rs.buckets), Joined(runs))
    modifies l, r
    ensures Reached(w, ls, rs, runs, n + 1, l', r', files', sizeOf)
    ensures NewIds(w, Joined(runs)) && old(l.UuidsExact() && r.UuidsExact()) ==> l'.UuidsExact() && r'.UuidsExact()
    ensures Described(l', files', sizeOf) && Described(r', files', sizeOf)
    ensures ok <==> Storable(l') && Storable(r')
    ensures if ok then fresh(l') && fresh(r') else l' == l && r' == r
    ensures old(Sure(ls, rs, Joined(runs), l, r)) ==> ok && Sure(ls, rs, Joined(runs), l', r')
  {
    hide Indexed, Stored, UuidSound, UuidIndexed, LinksSound, NamesOk, HasBucket, ParseDir, LegalRun, FreshNames,
      NewIds, FileNames, AllModest, Tidy, Storable, Since, Within, AllDrawn, ApplyAll;
    NextRun(w, FileNames(ls.me, ls.buckets) + FileNames(rs.me, rs.buckets), runs, n);
    SinceFresh(ls, ShapeOf(l), rs, ShapeOf(r), Joined(runs[..n]), runs[n]);
    if AllModest(Joined(runs)) { ModestRun(runs, n); }
    ghost var ls', rs' := ShapeOf(l), ShapeOf(r);
    ok, files', l', r' := Epoch(l, r, runs[n], files, macs, sizeOf);
    SinceNext(ls, ls', ShapeOf(l'), runs, n);
    SinceNext(rs, rs', ShapeOf(r'), runs, n);
    if Sure(ls, rs, Joined(runs), l', r') {
      SpareIsStorable(ls, l', runs, n + 1);
      SpareIsStorable(rs, r', runs, n + 1);
    }
  }

  /** The runs of a history one after the other, until one has made a directory too wide for the stored form. */
  method RunEpochs(ghost w: World, ghost ls: Shape, ghost rs: Shape, runs: seq<seq<Op>>, l: Dirnode, r: Dirnode,
                   files: map<Uuid, File>, macs: (nat, Side, nat) -> Mac, sizeOf: Bytes -> Option<nat>)
    returns (done: nat, files': map<Uuid, File>, l': Dirnode, r': Dirnode)
    requires Reached(w, ls, rs, runs, 0, l, r, files, sizeOf) && LegalRun(w, Joined(runs))
    requires FreshNames(FileNames(ls.me, ls.buckets) + FileNames(rs.me, rs.buckets), Joined(runs))
    modifies l, r
    ensures done <= |runs| && Reached(w, ls, rs, runs, if done < |runs| then done + 1 else done, l', r', files', sizeOf)
    ensures runs != [] ==> Described(l', files', sizeOf) && Described(r', files', sizeOf)
    ensures runs != [] ==> (done == |runs| <==> Storable(l') && Storable(r'))
    ensures NewIds(w, Joined(runs)) && old(l.UuidsExact() && r.UuidsExact()) ==> l'.UuidsExact() && r'.UuidsExact()
    ensures old(Sure(ls, rs, Joined(runs), l, r)) ==> done == |runs|
  {
    hide *;
    done, files', l', r' := 0, files, l, r;
    while done < |runs|
      invariant done <= |runs| && Reached(w, ls, rs, runs, done, l', r', files', sizeOf)
      invariant (l' == l || fresh(l')) && (r' == r || fresh(r'))
      invariant 0 < done ==> Described(l', files', sizeOf) && Described(r', files', sizeOf)
      invariant 0 < done ==> Storable(l') && Storable(r')
      invariant NewIds(w, Joined(runs)) && old(l.UuidsExact() && r.UuidsExact()) ==> l'.UuidsExact() && r'.UuidsExact()
      invariant old(Sure(ls, rs, Joined(runs), l, r)) ==> Sure(ls, rs, Joined(runs), l', r')
    {
      var n, ok := done, false;
      ok, files', l', r' := NextEpoch(w, ls, rs, runs, n, l', r', files', (s, i) => macs(n, s, i), sizeOf);
      if !ok { return; }
      done := done + 1;
    }
  }

  /**
   Any history of runs, with a store and a load of both directories after each. The directories have exactly the names
   and symlinks of the history, and so have the files. The history stops early only where a run has taken a directory
   outside the widths of the stored form, which the files then no longer describe. It does not stop early where there
   is room for its operations and no symlink target has more than 235 bytes.
   */
  method Epochs(l: Dirnode, r: Dirnode, runs: seq<seq<Op>>, files: map<Uuid, File>, macs: (nat, Side, nat) -> Mac,
                sizeOf: Bytes -> Option<nat>)
    returns (done: nat, files': map<Uuid, File>, l': Dirnode, r': Dirnode)
    requires Ready(l, r, files, sizeOf)
    requires LegalRun(Views(l, r), Joined(runs)) && FreshNames(FilesOf(l) + FilesOf(r), Joined(runs))
    modifies l, r
    ensures done <= |runs| && Ready(l', r', files', sizeOf) && l'.myUuid == l.myUuid && r'.myUuid == r.myUuid
    ensures Views(l', r') == ApplyAll(old(Views(l, r)), Joined(Front(runs, done + 1)))
    ensures runs != [] ==> Described(l', files', sizeOf) && Described(r', files', sizeOf)
    ensures runs != [] ==> (done == |runs| <==> Storable(l') && Storable(r'))
    ensures done == |runs| > 0 ==> var w := ApplyAll(old(Views(l, r)), Joined(runs));
      Recovered(files', l.myUuid, sizeOf) == Some(w.left) && Recovered(files', r.myUuid, sizeOf) == Some(w.right)
    ensures old(l.UuidsExact() && r.UuidsExact() && NewIds(Views(l, r), Joined(runs)))
      ==> l'.UuidsExact() && r'.UuidsExact()
    ensures old(Roomy(l, |Joined(runs)|) && Roomy(r, |Joined(runs)|)) && AllModest(Joined(runs)) ==> done == |runs|
  {
    hide *;
    ghost var w, ls, rs, all := Views(l, r), ShapeOf(l), ShapeOf(r), Joined(runs);
    NotBegun(w, ls, rs, runs, l, r, files, sizeOf);
    done, files', l', r' := RunEpochs(w, ls, rs, runs, l, r, files, macs, sizeOf);
    ghost var n := if done < |runs| then done + 1 else done;
    ReachedIs(w, ls, rs, runs, n, l', r', files', sizeOf);
    FrontIs(runs, n);
    FrontIs(runs, done + 1);
    if done == |runs| > 0 {
      StoredIsRecovered(l', files', sizeOf);
      StoredIsRecovered(r', files', sizeOf);
    }
  }

  lemma StoredIsRecovered(d: Dirnode, files: map<Uuid, File>, sizeOf: Bytes -> Option<nat>)
    requires d.Valid() && Storable(d) && Described(d, files, sizeOf)
    ensures Recovered(files, d.myUuid, sizeOf) == Some(View(d))
  {
    hide Indexed, Stored, UuidSound, LinksSound, NamesOk, HasBucket, ParseDir, Recovered, Storable;
    RecoveredIs(d, files, sizeOf);
  }

  lemma NotBegun(w: World, ls: Shape, rs: Shape, runs: seq<seq<Op>>, l: Dirnode, r: Dirnode, files: map<Uuid, File>,
                 sizeOf: Bytes -> Option<nat>)
    requires Ready(l, r, files, sizeOf) && w == Views(l, r) && ls == ShapeOf(l) && rs == ShapeOf(r)
    ensures Reached(w, ls, rs, runs, 0, l, r, files, sizeOf) && ls.me == l.myUuid && rs.me == r.myUuid
    ensures FilesOf(l) == FileNames(ls.me, ls.buckets) && FilesOf(r) == FileNames(rs.me, rs.buckets)
    ensures var all := Joined(runs);
      Roomy(l, |all|) && Roomy(r, |all|) && AllModest(all) ==> Sure(ls, rs, all, l, r)
  {
    hide Ready, FileNames, Tidy, AllModest;
    assert runs[..0] == [];
  }

  lemma ReachedIs(w: World, ls: Shape, rs: Shape, runs: seq<seq<Op>>, n: nat, l: Dirnode, r: Dirnode,
                  files: map<Uuid, File>, sizeOf: Bytes -> Option<nat>)
    requires n <= |runs| && Reached(w, ls, rs, runs, n, l, r, files, sizeOf)
    ensures Ready(l, r, files, sizeOf) && Views(l, r) == ApplyAll(w, Joined(runs[..n])) && l.Valid() && r.Valid()
    ensures l.myUuid == ls.me && Since(ls, ShapeOf(l), Joined(runs[..n]))
    ensures r.myUuid == rs.me && Since(rs, ShapeOf(r), Joined(runs[..n]))
    ensures Views(l, r) == World(View(l), View(r))
  {
  }

  lemma NewNames(me: Uuid, bucket: Uuid)
    ensures FileNames(me, [NewBucket(bucket)]) == {me, bucket}
  {
    var bs := [NewBucket(bucket)];
    assert bs[0].uuid in FileNames(me, bs);
  }

  const NO_NAMES := World(Listing(map[], []), Listing(map[], []))

  /**
   The same from the start: two new directories and any history of runs, each followed by a store and a load. Every
   history of fewer than 65535 operations without a symlink target of more than 235 bytes gets through.
   */
  method FromNew(lu: Uuid, lb: Uuid, ru: Uuid, rb: Uuid, table: Bytes, runs: seq<seq<Op>>, files: map<Uuid, File>,
                 macs: (nat, Side, nat) -> Mac, sizeOf: Bytes -> Option<nat>)
    returns (done: nat, files': map<Uuid, File>, l: Dirnode, r: Dirnode)
    requires lu != lb && ru != rb && {lu, lb} !! {ru, rb} && SelfDelimiting(sizeOf, table)
    requires LegalRun(NO_NAMES, Joined(runs)) && FreshNames({lu, lb, ru, rb}, Joined(runs))
    ensures done <= |runs| && Ready(l, r, files', sizeOf) && l.myUuid == lu && r.myUuid == ru
    ensures Views(l, r) == ApplyAll(NO_NAMES, Joined(Front(runs, done + 1)))
    ensures runs != [] ==> Described(l, files', sizeOf) && Described(r, files', sizeOf)
    ensures runs != [] ==> (done == |runs| <==> Storable(l) && Storable(r))
    ensures done == |runs| > 0 ==> var w := ApplyAll(NO_NAMES, Joined(runs));
      Recovered(files', lu, sizeOf) == Some(w.left) && Recovered(files', ru, sizeOf) == Some(w.right)
    ensures NewIds(NO_NAMES, Joined(runs)) ==> l.UuidsExact() && r.UuidsExact()
    ensures |Joined(runs)| < 0xffff && AllModest(Joined(runs)) ==> done == |runs|
  {
    hide Indexed, Stored, UuidSound, UuidIndexed, LinksShort, LinksSound, SelfDelimiting, NamesOk, LegalRun, FreshNames,
      NewIds, Recovered, ApplyAll, Joined, AllModest, ParseDir, HasBucket;
    l := new Dirnode(lu, lu, table, lb);
    r := new Dirnode(lu, ru, table, rb);
    NewNames(lu, lb);
    NewNames(ru, rb);
    assert FilesOf(l) + FilesOf(r) == {lu, lb, ru, rb};
    done, files', l, r := Epochs(l, r, runs, files, macs, sizeOf);
  }

  /** A directory with a symlink target of more than 235 bytes is not what its files describe. */
  method LongTargetIsLost(lu: Uuid, lb: Uuid, ru: Uuid, rb: Uuid, spare: Uuid, link: Uuid, name: Bytes, target: Bytes,
                          files: map<Uuid, File>, macs: (nat, Side, nat) -> Mac, sizeOf: Bytes -> Option<nat>)
    returns (files': map<Uuid, File>, l: Dirnode)
    requires lu != lb && ru != rb && {lu, lb} !! {ru, rb} && spare !in {lu, lb, ru, rb} && SelfDelimiting(sizeOf, [])
    requires NameOk(name) && 0 !in target && 235 < |target|
    ensures name in l.byName && !OnDisk(l, files', sizeOf)
  {
    var op := LinkOp(Left, name, target, link, spare);
    LongIsLegal({lu, lb, ru, rb}, op);
    hide *;
    var done, r;
    done, files', l, r := FromNew(lu, lb, ru, rb, [], [[op]], files, macs, sizeOf);
    LongIsLost(l, r, done, files', sizeOf, op);
  }

  lemma LongIsLegal(used: set<Uuid>, op: Op)
    requires op.LinkOp? && NameOk(op.name) && 0 !in op.target && op.bucket !in used
    ensures LegalRun(NO_NAMES, Joined([[op]])) && FreshNames(used, Joined([[op]]))
  {
    hide Apply;
    OneOperation(op);
    assert LegalRun(NO_NAMES, [op]) && FreshNames(used, [op]);
  }

  lemma LongIsLost(l: Dirnode, r: Dirnode, done: nat, files: map<Uuid, File>, sizeOf: Bytes -> Option<nat>, op: Op)
    requires Views(l, r) == ApplyAll(NO_NAMES, Joined(Front([[op]], done + 1))) && Described(l, files, sizeOf)
    requires op.LinkOp? && op.at.Left? && 235 < |op.target|
    ensures op.name in l.byName && !OnDisk(l, files, sizeOf)
  {
    hide OnDisk, Joined, ApplyAll;
    OneOperation(op);
    FrontIs([[op]], done + 1);
    assert Views(l, r) == Apply(NO_NAMES, op);
    assert MakeLink(op.uuid, Shorten(op.target)) in View(l).links;
  }

  lemma OneOperation(op: Op)
    ensures Joined([[op]]) == [op] && ApplyAll(NO_NAMES, [op]) == Apply(NO_NAMES, op)
  {
    hide Apply;
    assert [[op]][..0] == [] && [op][..0] == [];
  }
}
