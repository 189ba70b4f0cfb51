/**
 A directory: a map from names to (type, identifier) kept at once as a list, two hash indexes
 and buckets of at most 128 entries, with cached counts and sizes, a one-entry cache of the
 last failed lookup, and a list of symlink records.

 Linked lists are sequences and the hash maps are finite maps. An entry's links to its list
 position and its bucket are found again by search.
 */
module Dirnode {
  import opened Prelude
  import opened DirValues

  ghost predicate NamesOk(rs: seq<Rec>) {
    forall r | r in rs :: NameOk(r.name)
  }

  /** What `strnlen` bounds at PATH_MAX. */
  function Shorten(target: Bytes): Bytes {
    target[..Min(|target|, PATH_MAX)]
  }

  ghost predicate LinkOk(l: Link) {
    l == MakeLink(l.uuid, l.target) && |l.target| <= PATH_MAX && 0 !in l.target
  }

  ghost predicate LinksSound(ls: seq<Link>, count: nat, buflen: nat) {
    && count == |ls|
    && buflen >= SumLinks(ls)
    && (forall l | l in ls :: LinkOk(l))
  }

  class Dirnode {
    const myUuid: Uuid
    const rootUuid: Uuid

    /** The attribute table, in its stored form. */
    var attributes: Bytes

    var symlinks: seq<Link>
    var symlinkCount: nat
    var symlinkBuflen: nat

    var entries: seq<Rec>
    var byName: map<Bytes, Rec>
    var byUuid: map<Uuid, Rec>
    var entryCount: nat
    var entryBuflen: nat

    var buckets: seq<Bucket>
    var bucketCount: nat

    var lastFailed: Option<Bytes>

    ghost predicate Valid()
      reads this
    {
      && Indexed(entries, byName)
      && UuidSound(entries, byUuid)
      && NamesOk(entries)
      && Stored(entries, buckets)
      && !HasBucket(buckets, myUuid)
      && entryCount == |entries|
      && entryBuflen == SumLen(entries)
      && bucketCount == |buckets|
      && (lastFailed.Some? ==> lastFailed.value !in byName)
      && LinksSound(symlinks, symlinkCount, symlinkBuflen)
    }

    /** The identifier index is exact; kept while no identifier occurs twice. */
    ghost predicate UuidsExact()
      reads this
    {
      UuidIndexed(entries, byUuid)
    }

    predicate Fresh(u: Uuid)
      reads this
    {
      u != myUuid && !HasBucket(buckets, u)
    }

    /** `symlinkBuflen` counts the bytes of the records, which add up to less when a length was cut to a byte. */
    ghost function Slack(): int
      reads this
    {
      symlinkBuflen - SumLinks(symlinks)
    }

    /** `dirnode_create`: an empty directory with one bucket. */
    constructor (root: Uuid, me: Uuid, table: Bytes, bucketUuid: Uuid)
      requires bucketUuid != me
      ensures Valid() && UuidsExact() && Slack() == 0
      ensures myUuid == me && rootUuid == root && attributes == table
      ensures byName == map[] && entries == [] && symlinks == [] && buckets == [NewBucket(bucketUuid)]
    {
      hide Stored, Indexed, UuidSound, UuidIndexed, HasBucket, LinksSound;
      myUuid, rootUuid, attributes := me, root, table;
      symlinks, symlinkCount, symlinkBuflen := [], 0, 0;
      entries, byName, byUuid, entryCount, entryBuflen := [], map[], map[], 0, 0;
      buckets, bucketCount := [], 0;
      lastFailed := None;
      new;
      var i := GetAvailableBucket(bucketUuid);
      assert buckets == [NewBucket(bucketUuid)];
      NewIsValid(bucketUuid, myUuid);
    }

    /** A directory with its header read and everything else still to be loaded. */
    constructor Parsed(me: Uuid, root: Uuid, linkCount: nat, linkBuflen: nat, count: nat, buflen: nat, bucketTotal: nat)
      ensures myUuid == me && rootUuid == root
      ensures symlinkCount == linkCount && symlinkBuflen == linkBuflen
      ensures entryCount == count && entryBuflen == buflen && bucketCount == bucketTotal
      ensures symlinks == [] && buckets == [] && entries == [] && byName == map[] && byUuid == map[]
      ensures lastFailed == None
    {
      myUuid, rootUuid, attributes := me, root, [];
      symlinks, symlinkCount, symlinkBuflen := [], linkCount, linkBuflen;
      entries, byName, byUuid, entryCount, entryBuflen := [], map[], map[], count, buflen;
      buckets, bucketCount := [], bucketTotal;
      lastFailed := None;
    }

    /** The first bucket with room; a new one at the end when all are full. */
    method GetAvailableBucket(u: Uuid) returns (i: nat)
      requires bucketCount == |buckets|
      modifies `buckets, `bucketCount
      ensures i == RoomIn(old(buckets)) && i < |buckets| && bucketCount == |buckets|
      ensures buckets[i].numItems < buckets[i].capacity
      ensures buckets == if i < |old(buckets)| then old(buckets) else old(buckets) + [NewBucket(u)]
    {
      i := 0;
      while i < |buckets| && buckets[i].numItems >= buckets[i].capacity
        invariant i <= |buckets| && i + RoomIn(buckets[i..]) == RoomIn(buckets)
      {
        i := i + 1;
      }
      if i == |buckets| {
        buckets := buckets + [NewBucket(u)];
        bucketCount := bucketCount + 1;
      }
    }

    /** Puts an entry into a bucket with room. */
    method Place(r: Rec, u: Uuid)
      requires Stored(entries, buckets) && !HasBucket(buckets, myUuid) && Fresh(u) && bucketCount == |buckets|
      modifies `buckets, `bucketCount
      ensures Stored(entries + [r], buckets) && !HasBucket(buckets, myUuid) && bucketCount == |buckets|
      ensures buckets == Placed(old(buckets), r, u) && Touched(old(buckets), buckets)
    {
      hide Stored, Touched, HasBucket;
      var i := GetAvailableBucket(u);
      MaybeGrownStored(entries, old(buckets), buckets, u, i);
      AddStored(entries, buckets, i, r);
      AddTouches(old(buckets), buckets, u, i, r);
      NoBucketAdded(old(buckets), buckets, u, i, BucketAdd(buckets[i], r), myUuid);
      buckets := buckets[i := BucketAdd(buckets[i], r)];
    }

    /** Enters an entry into the list and both indexes; `ForgetEntry` takes it out. */
    method Index(r: Rec)
      requires Indexed(entries, byName) && UuidSound(entries, byUuid) && r.name !in byName
      modifies `entries, `byName, `byUuid
      ensures Indexed(entries, byName) && UuidSound(entries, byUuid)
      ensures entries == old(entries) + [r] && byName == old(byName)[r.name := r]
      ensures byUuid == old(byUuid)[r.uuid := r]
      ensures old(UuidsExact() && r.uuid !in byUuid) ==> UuidsExact()
    {
      hide Indexed, UuidIndexed, UuidSound;
      IndexAdd(entries, byName, r);
      UuidSoundAdd(entries, byUuid, r);
      if UuidsExact() && r.uuid !in byUuid { UuidIndexAdd(entries, byUuid, r); }
      byName := byName[r.name := r];
      byUuid := byUuid[r.uuid := r];
      entries := entries + [r];
    }

    method ForgetEntry(r: Rec)
      requires Indexed(entries, byName) && UuidSound(entries, byUuid) && r in entries
      modifies `entries, `byName, `byUuid
      ensures Indexed(entries, byName) && UuidSound(entries, byUuid)
      ensures entries == Without(old(entries), r) && byName == old(byName) - {r.name}
      ensures byUuid == Forget(old(byUuid), r)
      ensures old(UuidsExact()) ==> UuidsExact()
    {
      hide Indexed, UuidIndexed, Drop, UuidSound, DistinctNames;
      var k := IndexOf(entries, r);
      IndexDrop(entries, byName, k);
      assert DistinctNames(entries) by { IndexedDistinct(entries, byName); }
      UuidSoundDrop(entries, byUuid, k);
      if UuidsExact() { UuidIndexDrop(entries, byUuid, k); }
      byName := byName - {r.name};
      byUuid := Forget(byUuid, r);
      entries := Drop(entries, k);
    }

    method AddDirentry(r: Rec, u: Uuid)
      requires Valid() && NameOk(r.name) && r.name !in byName && Fresh(u)
      modifies `buckets, `bucketCount, `entries, `byName, `byUuid, `entryCount, `entryBuflen, `lastFailed
      ensures Valid()
      ensures entries == old(entries) + [r] && byName == old(byName)[r.name := r]
      ensures old(UuidsExact() && r.uuid !in byUuid) ==> UuidsExact()
      ensures byUuid == old(byUuid)[r.uuid := r] && lastFailed == None
      ensures buckets == Placed(old(buckets), r, u) && Touched(old(buckets), buckets)
    {
      hide Stored, Indexed, UuidSound, UuidIndexed, SumLen, Touched, HasBucket, NamesOk, LinksSound, NameOk, Placed;
      Place(r, u);
      AddNamesOk(entries, r);
      AddOne(entries, r);
      Index(r);
      entryCount, entryBuflen := entryCount + 1, entryBuflen + RecLen(r);
      lastFailed := None;
    }

    /** Takes an entry out of the bucket that holds it. */
    method Unplace(r: Rec)
      requires Stored(entries, buckets) && !HasBucket(buckets, myUuid) && r in entries
      modifies `buckets
      ensures Stored(Without(entries, r), buckets) && !HasBucket(buckets, myUuid)
      ensures InBuckets(old(buckets), r) && buckets == Taken(old(buckets), r)
      ensures Touched(old(buckets), buckets) && |buckets| == |old(buckets)|
    {
      hide Touched, HasBucket, BucketsSound, Gather, Drop, Stored;
      var k := IndexOf(entries, r);
      InBucket(entries, buckets, r);
      var i := BucketOf(buckets, r);
      var j := IndexOf(buckets[i].entries, r);
      DelStored(entries, buckets, k, i, j);
      TouchedOne(buckets, i, BucketDel(buckets[i], j));
      buckets := buckets[i := BucketDel(buckets[i], j)];
      SameUuids(old(buckets), buckets, myUuid);
    }

    method DelDirentry(r: Rec)
      requires Valid() && r in entries
      modifies `buckets, `entries, `byName, `byUuid, `entryCount, `entryBuflen, `lastFailed
      ensures Valid()
      ensures entries == Without(old(entries), r) && byName == old(byName) - {r.name}
      ensures byUuid == Forget(old(byUuid), r) && lastFailed == None
      ensures old(UuidsExact()) ==> UuidsExact()
      ensures InBuckets(old(buckets), r) && buckets == Taken(old(buckets), r)
      ensures Touched(old(buckets), buckets) && |buckets| == |old(buckets)|
    {
      hide Stored, Indexed, UuidSound, UuidIndexed, SumLen, Touched, HasBucket, NamesOk, LinksSound, Drop, Taken,
        InBuckets;
      var k := IndexOf(entries, r);
      Unplace(r);
      DropOne(entries, k);
      DropLength(entries, k);
      DropNamesOk(entries, k);
      ForgetEntry(r);
      entryCount, entryBuflen := entryCount - 1, entryBuflen - RecLen(r);
      lastFailed := None;
    }

    /** The cached failure never changes an answer: this is what a scan of the list finds. */
    method FindByName(name: Bytes) returns (found: Option<Rec>)
      requires Valid() && NameOk(name)
      modifies `lastFailed
      ensures Valid()
      ensures found == Scan(entries, name)
      ensures found == if name in byName then Some(byName[name]) else None
      ensures lastFailed == if found.Some? then None else Some(name)
    {
      hide Stored, Indexed, UuidSound, SumLen, SumLinks, HasBucket, Scan;
      ScanIsLookup(entries, byName, name);
      if lastFailed == Some(name) {
        return None;
      }
      lastFailed := None;
      if name !in byName {
        lastFailed := Some(name);
        return None;
      }
      found := Some(byName[name]);
    }

    method FindByUuid(u: Uuid) returns (found: Option<Rec>)
      requires Valid()
      ensures found.Some? ==> found.value in entries && found.value.uuid == u
      ensures UuidsExact() && found.None? ==> forall r | r in entries :: r.uuid != u
    {
      found := if u in byUuid then Some(byUuid[u]) else None;
    }

    method Add(name: Bytes, kind: Kind, uuid: Uuid, bucketUuid: Uuid) returns (ok: bool)
      requires Valid() && NameOk(name) && Fresh(bucketUuid)
      modifies `buckets, `bucketCount, `entries, `byName, `byUuid, `entryCount, `entryBuflen, `lastFailed
      ensures Valid()
      ensures ok == (name !in old(byName))
      ensures byName == if ok then old(byName)[name := Rec(name, kind, uuid)] else old(byName)
      ensures entries == if ok then old(entries) + [Rec(name, kind, uuid)] else old(entries)
      ensures byUuid == if ok then old(byUuid)[uuid := Rec(name, kind, uuid)] else old(byUuid)
      ensures buckets == if ok then Placed(old(buckets), Rec(name, kind, uuid), bucketUuid) else old(buckets)
      ensures lastFailed == None
      ensures old(UuidsExact() && uuid !in byUuid) ==> UuidsExact()
      ensures Touched(old(buckets), buckets)
    {
      hide Stored, Indexed, UuidSound, UuidIndexed, SumLen, SumLinks, HasBucket, Scan, Placed;
      var found := FindByName(name);
      if found.Some? {
        return false;
      }
      lastFailed := None;
      AddDirentry(Rec(name, kind, uuid), bucketUuid);
      ok := true;
    }

    /** Adds a symlink record; its length is exact only for targets of at most 235 bytes. */
    method AddSymlink(u: Uuid, target: Bytes)
      requires Valid() && 0 !in target
      modifies `symlinks, `symlinkCount, `symlinkBuflen, `lastFailed
      ensures Valid() && lastFailed == None
      ensures symlinks == old(symlinks) + [MakeLink(u, Shorten(target))]
      ensures Shorten(target) == if |target| <= 1024 then target else target[..1024]
      ensures Slack() == old(Slack()) + (|Shorten(target)| + 20) / 0x100 * 0x100
      ensures Slack() == old(Slack()) <==> |target| <= 235
    {
      hide Stored, Indexed, UuidSound, SumLen, SumLinks, HasBucket;
      var t := Shorten(target);
      var l := MakeLink(u, t);
      SumLinksAdd(symlinks, l);
      assert LinkOk(l);
      symlinks := symlinks + [l];
      symlinkCount := symlinkCount + 1;
      symlinkBuflen := symlinkBuflen + |t| + 20;
      lastFailed := None;
    }

    method AddLink(name: Bytes, target: Bytes, uuid: Uuid, bucketUuid: Uuid) returns (ok: bool)
      requires Valid() && NameOk(name) && 0 !in target && Fresh(bucketUuid)
      modifies this
      ensures Valid() && attributes == old(attributes) && lastFailed == None
      ensures ok == (name !in old(byName))
      ensures byName == if ok then old(byName)[name := Rec(name, Lnk, uuid)] else old(byName)
      ensures entries == if ok then old(entries) + [Rec(name, Lnk, uuid)] else old(entries)
      ensures byUuid == if ok then old(byUuid)[uuid := Rec(name, Lnk, uuid)] else old(byUuid)
      ensures buckets == if ok then Placed(old(buckets), Rec(name, Lnk, uuid), bucketUuid) else old(buckets)
      ensures symlinks == if ok then old(symlinks) + [MakeLink(uuid, Shorten(target))] else old(symlinks)
      ensures Slack() == old(Slack()) <==> !ok || |target| <= 235
      ensures ok && old(TargetOf(symlinks, uuid)).None? ==> TargetOf(symlinks, uuid) == Some(Shorten(target))
      ensures old(UuidsExact() && uuid !in byUuid) ==> UuidsExact()
      ensures Touched(old(buckets), buckets)
    {
      hide Stored, Indexed, UuidSound, UuidIndexed, SumLen, SumLinks, HasBucket, Touched, TargetOf, Placed;
      ok := Add(name, Lnk, uuid, bucketUuid);
      if ok {
        TargetOfAdded(symlinks, MakeLink(uuid, Shorten(target)), uuid);
        AddSymlink(uuid, target);
      }
    }

    /** The first record for `u`, or the number of records. */
    method FindSymlink(u: Uuid) returns (k: nat)
      ensures k <= |symlinks| && (forall i | 0 <= i < k :: symlinks[i].uuid != u)
      ensures k < |symlinks| ==> symlinks[k].uuid == u
    {
      k := 0;
      while k < |symlinks| && symlinks[k].uuid != u
        invariant k <= |symlinks| && (forall i | 0 <= i < k :: symlinks[i].uuid != u)
      {
        k := k + 1;
      }
    }

    method RemoveSymlink(u: Uuid) returns (target: Option<Bytes>)
      requires Valid()
      modifies `symlinks, `symlinkCount, `symlinkBuflen
      ensures Valid()
      ensures target == old(TargetOf(symlinks, u))
      ensures symlinks == Unlink(old(symlinks), u)
      ensures Slack() == old(Slack())
    {
      hide Stored, Indexed, UuidSound, SumLen, SumLinks, HasBucket, Unlink, TargetOf;
      var k := FindSymlink(u);
      if k == |symlinks| {
        TargetOfNone(symlinks, u);
        UnlinkNothing(symlinks, u);
        return None;
      }
      UnlinkAt(symlinks, u, k);
      SumLinksDrop(symlinks, k);
      assert LinkOk(symlinks[k]) && Shorten(symlinks[k].target) == symlinks[k].target;
      target := Some(Shorten(symlinks[k].target));
      symlinkCount := symlinkCount - 1;
      symlinkBuflen := symlinkBuflen - symlinks[k].totalLen;
      symlinks := symlinks[..k] + symlinks[k + 1..];
    }

    method GetLink(u: Uuid) returns (target: Option<Bytes>)
      requires Valid()
      ensures target == TargetOf(symlinks, u)
    {
      hide Stored, Indexed, UuidSound, SumLen, SumLinks, HasBucket, Unlink, TargetOf;
      var k := FindSymlink(u);
      if k == |symlinks| {
        TargetOfNone(symlinks, u);
        return None;
      }
      UnlinkAt(symlinks, u, k);
      assert LinkOk(symlinks[k]) && Shorten(symlinks[k].target) == symlinks[k].target;
      target := Some(Shorten(symlinks[k].target));
    }

    /** Makes room for a name: the entry that has it, if any, goes. */
    method Clobber(name: Bytes) returns (gone: Option<Rec>)
      requires Valid() && NameOk(name)
      modifies `buckets, `entries, `byName, `byUuid, `entryCount, `entryBuflen, `lastFailed
      ensures Valid()
      ensures gone == if name in old(byName) then Some(old(byName)[name]) else None
      ensures byName == old(byName) - {name}
      ensures entries == Sans(old(entries), gone)
      ensures gone.None? ==> buckets == old(buckets) && lastFailed == Some(name)
      ensures gone.Some? ==> InBuckets(old(buckets), gone.value) && buckets == Taken(old(buckets), gone.value)
      ensures byUuid == if gone.Some? then Forget(old(byUuid), gone.value) else old(byUuid)
      ensures old(UuidsExact()) ==> UuidsExact()
      ensures Touched(old(buckets), buckets) && |buckets| == |old(buckets)|
    {
      hide Stored, Indexed, UuidSound, UuidIndexed, SumLen, HasBucket, Drop, Touched, LinksSound, Taken, InBuckets;
      Untouched(buckets);
      gone := FindByName(name);
      if gone.Some? {
        Lookup(entries, byName, name);
        DelDirentry(gone.value);
      }
    }

    /**
     Removes a name. `kind0` and `uuid0` are what the caller's result variables hold before the call: when there
     is no such name they stay, and the symlink record for `uuid0` is dropped all the same if `kind0` says symlink.
     */
    method Remove(name: Bytes, kind0: Kind, uuid0: Uuid)
      returns (ok: bool, kind: Kind, uuid: Uuid, target: Option<Bytes>)
      requires Valid() && NameOk(name)
      modifies this
      ensures Valid() && attributes == old(attributes)
      ensures ok == (name in old(byName)) && byName == old(byName) - {name}
      ensures entries == if ok then Without(old(entries), old(byName)[name]) else old(entries)
      ensures Rec(name, kind, uuid) == if ok then old(byName)[name] else Rec(name, kind0, uuid0)
      ensures byUuid == if ok then Forget(old(byUuid), Rec(name, kind, uuid)) else old(byUuid)
      ensures !ok ==> buckets == old(buckets) && lastFailed == Some(name)
      ensures ok ==> lastFailed == None
      ensures ok ==> InBuckets(old(buckets), old(byName)[name]) && buckets == Taken(old(buckets), old(byName)[name])
      ensures symlinks == if kind == Lnk then Unlink(old(symlinks), uuid) else old(symlinks)
      ensures target == if kind == Lnk then TargetOf(old(symlinks), uuid) else None
      ensures !ok ==> (symlinks == old(symlinks) <==> kind0 != Lnk || TargetOf(old(symlinks), uuid0).None?)
      ensures Slack() == old(Slack())
      ensures old(UuidsExact()) ==> UuidsExact()
      ensures Touched(old(buckets), buckets) && |buckets| == |old(buckets)|
    {
      hide Stored, Indexed, UuidSound, UuidIndexed, SumLen, SumLinks, HasBucket, Unlink, TargetOf, Drop, Taken,
        InBuckets, Touched, LinksSound, NamesOk;
      Untouched(buckets);
      var found := FindByName(name);
      kind, uuid, target, ok := kind0, uuid0, None, found.Some?;
      if found.Some? {
        Lookup(entries, byName, name);
        kind, uuid := found.value.kind, found.value.uuid;
        DelDirentry(found.value);
      }
      if kind == Lnk {
        if TargetOf(symlinks, uuid).Some? { UnlinkSome(symlinks, uuid); } else { UnlinkNothing(symlinks, uuid); }
        target := RemoveSymlink(uuid);
      }
    }

    /** One page of the listing: up to `count` entries from position `offset` on, and the number of entries. */
    method Readdir(count: nat, offset: nat) returns (page: Option<seq<Rec>>, size: nat)
      requires Valid()
      ensures page.None? <==> count == 0
      ensures page.Some? && offset < |entries| ==> page.value == entries[offset..Min(offset + count, |entries|)]
      ensures page.Some? && offset >= |entries| ==> page.value == []
      ensures page.Some? ==> size == |entries|
    {
      hide Stored, Indexed, UuidSound, SumLen, SumLinks, HasBucket;
      if count < 1 {
        return None, 0;
      }
      if offset >= entryCount {
        return Some([]), entryCount;
      }
      var skip, copied, i := offset, [], 0;
      while i < |entries| && |copied| < count
        invariant i <= |entries|
        invariant skip == Max(offset - i, 0) && |copied| == Max(i - offset, 0) <= count
        invariant i >= offset ==> copied == entries[offset..i]
      {
        if skip > 0 {
          skip := skip - 1;
        } else {
          copied := copied + [entries[i]];
        }
        i := i + 1;
      }
      page, size := Some(copied), entryCount;
    }
  }

  /**
   `dirnode_rename`, within one directory or from one to another. The target is never the renamed entry itself.
   The record of an overwritten symlink stays where it is.
   */
  method Rename(src: Dirnode, oldName: Bytes, dst: Dirnode, newName: Bytes, bucketUuid: Uuid)
    returns (moved: Option<Rec>, overwritten: Option<Rec>)
    requires src.Valid() && dst.Valid() && NameOk(oldName) && NameOk(newName) && dst.Fresh(bucketUuid)
    requires src == dst && oldName in src.byName ==> oldName != newName
    modifies src`buckets, src`entries, src`byName, src`byUuid, src`entryCount, src`entryBuflen, src`lastFailed
    modifies src`symlinks, src`symlinkCount, src`symlinkBuflen
    modifies dst`buckets, dst`entries, dst`byName, dst`byUuid, dst`entryCount, dst`entryBuflen, dst`lastFailed
    modifies dst`symlinks, dst`symlinkCount, dst`symlinkBuflen, dst`bucketCount
    ensures src.Valid() && dst.Valid()
    ensures moved.Some? <==> oldName in old(src.byName)
    ensures moved.Some? ==> moved.value == old(src.byName)[oldName].(name := newName)
    ensures overwritten == if moved.Some? && newName in old(dst.byName) then Some(old(dst.byName)[newName]) else None
    ensures moved.None? ==> src.byName == old(src.byName) && dst.byName == old(dst.byName)
    ensures moved.None? ==> src.symlinks == old(src.symlinks) && dst.symlinks == old(dst.symlinks)
    ensures moved.Some? && src == dst ==> dst.byName == (old(dst.byName) - {oldName})[newName := moved.value]
    ensures moved.Some? && src != dst ==> src.byName == old(src.byName) - {oldName}
    ensures moved.Some? && src != dst ==> dst.byName == old(dst.byName)[newName := moved.value]
    ensures moved.None? ==> src.entries == old(src.entries) && dst.entries == old(dst.entries)
    ensures moved.Some? && src != dst ==> src.entries == Sans(old(src.entries), Some(old(src.byName)[oldName]))
    ensures moved.Some? ==>
      var cleared := Sans(old(dst.entries), overwritten);
      var rest := if src == dst then Sans(cleared, Some(old(src.byName)[oldName])) else cleared;
      dst.entries == rest + [moved.value]
    ensures src == dst ==> dst.symlinks == old(dst.symlinks)
    ensures moved.Some? && src != dst ==> src.symlinks == Unlink(old(src.symlinks), moved.value.uuid)
    ensures moved.Some? && src != dst ==>
      dst.symlinks == Carried(old(src.symlinks), old(dst.symlinks), moved.value.uuid)
    ensures src.Slack() == old(src.Slack()) && (moved.None? ==> dst.Slack() == old(dst.Slack()))
    ensures moved.Some? && src != dst ==>
      var target := TargetOf(old(src.symlinks), moved.value.uuid);
      dst.Slack() == old(dst.Slack()) <==> target.None? || |target.value| <= 235
    ensures Touched(old(src.buckets), src.buckets) && Touched(old(dst.buckets), dst.buckets)
    ensures Grown(old(dst.buckets), dst.buckets, bucketUuid) && (src != dst ==> |src.buckets| == |old(src.buckets)|)
    ensures old(src.UuidsExact() && dst.UuidsExact())
         && (moved.Some? ==> src == dst || moved.value.uuid !in old(dst.byUuid))
        ==> src.UuidsExact() && dst.UuidsExact()
  {
    hide Stored, Indexed, UuidSound, UuidIndexed, SumLen, SumLinks, HasBucket, Unlink, TargetOf, Drop, Touched,
      NamesOk, LinksSound, Taken, InBuckets, Placed;
    moved, overwritten := None, None;
    var entry := src.FindByName(oldName);
    if entry.None? {
      Untouched(src.buckets);
      Untouched(dst.buckets);
      return;
    }
    overwritten := dst.Clobber(newName);
    SameUuids(old(dst.buckets), dst.buckets, bucketUuid);
    assert oldName in src.byName && src.byName[oldName] == entry.value;
    assert src != dst ==> src.entries == old(src.entries);
    Lookup(src.entries, src.byName, oldName);
    label cleared:
    var r := MoveEntry(src, entry.value, dst, newName, bucketUuid);
    moved := Some(r);
    TouchedAgain(old(dst.buckets), old@cleared(dst.buckets), dst.buckets);
    if src != dst {
      MoveSymlink(src, dst, r.uuid);
    }
  }

  /** Takes an entry out of one directory, renames it and puts it into the other (or back). */
  method MoveEntry(src: Dirnode, entry: Rec, dst: Dirnode, newName: Bytes, bucketUuid: Uuid) returns (r: Rec)
    requires src.Valid() && dst.Valid() && entry in src.entries && NameOk(newName) && newName !in dst.byName
    requires dst.Fresh(bucketUuid)
    modifies src`buckets, src`entries, src`byName, src`byUuid, src`entryCount, src`entryBuflen, src`lastFailed
    modifies dst`buckets, dst`entries, dst`byName, dst`byUuid, dst`entryCount, dst`entryBuflen, dst`lastFailed
    modifies dst`bucketCount
    ensures src.Valid() && dst.Valid()
    ensures r == entry.(name := newName)
    ensures src == dst ==> dst.byName == (old(dst.byName) - {entry.name})[newName := r]
    ensures src != dst ==> src.byName == old(src.byName) - {entry.name}
    ensures src != dst ==> dst.byName == old(dst.byName)[newName := r]
    ensures src == dst ==> dst.entries == Without(old(dst.entries), entry) + [r]
    ensures src != dst ==> src.entries == Without(old(src.entries), entry) && dst.entries == old(dst.entries) + [r]
    ensures Touched(old(src.buckets), src.buckets) && Touched(old(dst.buckets), dst.buckets)
    ensures Grown(old(dst.buckets), dst.buckets, bucketUuid) && (src != dst ==> |src.buckets| == |old(src.buckets)|)
    ensures old(src.UuidsExact() && dst.UuidsExact()) && (src == dst || r.uuid !in old(dst.byUuid))
        ==> src.UuidsExact() && dst.UuidsExact()
  {
    hide Stored, Indexed, UuidSound, UuidIndexed, SumLen, SumLinks, HasBucket, Unlink, TargetOf, Drop, Touched,
      NamesOk, LinksSound, Taken, InBuckets, Placed;
    src.DelDirentry(entry);
    r := entry.(name := newName);
    if old(src.UuidsExact()) { Forgotten(old(src.entries), old(src.byUuid), entry); }
    if src == dst { SameUuids(old(dst.buckets), dst.buckets, bucketUuid); }
    label taken:
    PlacedGrown(dst.buckets, r, bucketUuid);
    dst.AddDirentry(r, bucketUuid);
    if src == dst { TouchedAgain(old(dst.buckets), old@taken(dst.buckets), dst.buckets); }
  }

  /** The record for `u`, if there is one, leaves `src` and is written anew in `dst`. */
  method MoveSymlink(src: Dirnode, dst: Dirnode, u: Uuid)
    requires src.Valid() && dst.Valid() && src != dst
    modifies src`symlinks, src`symlinkCount, src`symlinkBuflen
    modifies dst`symlinks, dst`symlinkCount, dst`symlinkBuflen, dst`lastFailed
    ensures src.Valid() && dst.Valid()
    ensures src.symlinks == Unlink(old(src.symlinks), u)
    ensures dst.symlinks == Carried(old(src.symlinks), old(dst.symlinks), u)
    ensures src.Slack() == old(src.Slack())
    ensures dst.Slack() == old(dst.Slack())
       <==> TargetOf(old(src.symlinks), u).None? || |TargetOf(old(src.symlinks), u).value| <= 235
  {
    hide Stored, Indexed, UuidSound, UuidIndexed, SumLen, SumLinks, HasBucket, Unlink, TargetOf, NamesOk;
    var target := src.RemoveSymlink(u);
    if target.Some? {
      TargetIsOk(old(src.symlinks), old(src.symlinkCount), old(src.symlinkBuflen), u);
      assert Shorten(target.value) == target.value;
      dst.AddSymlink(u, target.value);
    }
  }

  // ---------------------------------------------------------------- steps of the proofs

  lemma NewIsValid(u: Uuid, me: Uuid)
    requires u != me
    ensures Stored([], [NewBucket(u)]) && !HasBucket([NewBucket(u)], me)
    ensures Indexed([], map[]) && UuidIndexed([], map[]) && UuidSound([], map[]) && LinksSound([], 0, 0)
  {
    hide Gather, SumItems, SumSizes;
    var bs := [NewBucket(u)];
    AppendBucket([], NewBucket(u));
    assert [] + bs == bs;
    assert Gather([]) == [] && SumItems([]) == 0 && SumSizes([]) == 0 by { Nothing(); }
    assert BucketSound(bs[0]);
  }

  lemma Nothing()
    ensures Gather([]) == [] && SumItems([]) == 0 && SumSizes([]) == 0
  {
  }

  lemma MaybeGrownStored(rs: seq<Rec>, before: seq<Bucket>, bs: seq<Bucket>, u: Uuid, i: nat)
    requires Stored(rs, before) && !HasBucket(before, u) && i < |bs|
    requires bs == if i < |before| then before else before + [NewBucket(u)]
    ensures Stored(rs, bs)
  {
    hide Stored, HasBucket;
    if i >= |before| { GrowStored(rs, before, u); }
  }

  lemma Lookup(rs: seq<Rec>, byName: map<Bytes, Rec>, n: Bytes)
    requires Indexed(rs, byName) && n in byName
    ensures byName[n] in rs && byName[n].name == n
  {
  }

  lemma IndexedDistinct(rs: seq<Rec>, m: map<Bytes, Rec>)
    requires Indexed(rs, m)
    ensures DistinctNames(rs)
  {
  }

  lemma PlacedGrown(bs: seq<Bucket>, r: Rec, u: Uuid)
    ensures Grown(bs, Placed(bs, r, u), u)
  {
  }

  lemma Forgotten(rs: seq<Rec>, byUuid: map<Uuid, Rec>, r: Rec)
    requires UuidIndexed(rs, byUuid) && r in rs
    ensures r.uuid !in Forget(byUuid, r)
  {
  }

  lemma Untouched(bs: seq<Bucket>)
    ensures Touched(bs, bs)
  {
  }

  /** The destination's records after a move: the source's record for `u`, if any, is added at the end. */
  function Carried(from: seq<Link>, to: seq<Link>, u: Uuid): seq<Link> {
    if TargetOf(from, u).Some? then to + [MakeLink(u, TargetOf(from, u).value)] else to
  }

  /** A move takes the target of a symlink along and changes no other symlink of either directory. */
  lemma CarriedKeepsTargets(from: seq<Link>, to: seq<Link>, u: Uuid, v: Uuid)
    ensures v != u ==> TargetOf(Unlink(from, u), v) == TargetOf(from, v)
    ensures v != u ==> TargetOf(Carried(from, to, u), v) == TargetOf(to, v)
    ensures TargetOf(to, u).None? ==> TargetOf(Carried(from, to, u), u) == TargetOf(from, u)
  {
    if u != v { UnlinkKeepsOthers(from, u, v); }
    if TargetOf(from, u).Some? {
      TargetOfAdded(to, MakeLink(u, TargetOf(from, u).value), u);
      TargetOfAdded(to, MakeLink(u, TargetOf(from, u).value), v);
    }
  }

  lemma {:induction false} TargetIsOk(ls: seq<Link>, count: nat, buflen: nat, u: Uuid)
    requires LinksSound(ls, count, buflen) && TargetOf(ls, u).Some?
    ensures 0 !in TargetOf(ls, u).value && |TargetOf(ls, u).value| <= PATH_MAX
  {
    assert LinkOk(ls[0]);
    if ls[0].uuid == u {
    } else {
      TargetIsOk(ls[1..], |ls| - 1, SumLinks(ls[1..]), u);
    }
  }

  ghost predicate InBuckets(bs: seq<Bucket>, r: Rec) {
    BucketsSound(bs) && r in Gather(bs)
  }

  lemma InBucket(rs: seq<Rec>, bs: seq<Bucket>, r: Rec)
    requires Stored(rs, bs) && r in rs
    ensures InBuckets(bs, r) && r in Gather(bs)
  {
    hide Gather, BucketsSound;
    assert r in multiset(Gather(bs));
  }

  lemma AddNamesOk(rs: seq<Rec>, r: Rec)
    requires NamesOk(rs) && NameOk(r.name)
    ensures NamesOk(rs + [r])
  {
  }

  lemma DropNamesOk(rs: seq<Rec>, k: nat)
    requires NamesOk(rs) && k < |rs|
    ensures NamesOk(Drop(rs, k))
  {
  }

  lemma AddTouches(before: seq<Bucket>, bs: seq<Bucket>, u: Uuid, i: nat, r: Rec)
    requires i < |bs|
    requires bs == if i < |before| then before else before + [NewBucket(u)]
    ensures Touched(before, bs[i := BucketAdd(bs[i], r)])
  {
  }

  lemma NoBucketAdded(before: seq<Bucket>, bs: seq<Bucket>, u: Uuid, i: nat, b: Bucket, me: Uuid)
    requires i < |bs|
    requires bs == if i < |before| then before else before + [NewBucket(u)]
    requires !HasBucket(before, me) && u != me && b.uuid == bs[i].uuid
    ensures !HasBucket(bs[i := b], me)
  {
    assert forall j | 0 <= j < |before| :: before[j].uuid != me;
  }

  /**
   A removal that fails can drop the symlink record of another name. The name is still there, its target is gone.
   */
  method FailedRemoveDropsLink(me: Uuid, bucket: Uuid, spare: Uuid, link: Uuid, name: Bytes, missing: Bytes,
                               target: Bytes)
    returns (d: Dirnode, ok: bool)
    requires me != bucket && spare != me && spare != bucket && missing != name
    requires NameOk(name) && NameOk(missing) && 0 !in target
    ensures !ok && d.Valid() && d.byName == map[name := Rec(name, Lnk, link)] && TargetOf(d.symlinks, link).None?
  {
    hide Stored, Indexed, UuidSound, UuidIndexed, LinksSound, Placed, Taken, InBuckets, NamesOk, SumLen, SumLinks,
      Touched, Without, Forget, Shorten;
    d := new Dirnode(me, me, [], bucket);
    var added := d.AddLink(name, target, link, spare);
    assert d.symlinks == [MakeLink(link, Shorten(target))];
    var kind, uuid, was;
    ok, kind, uuid, was := d.Remove(missing, Lnk, link);
  }
}
