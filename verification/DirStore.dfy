/**
 Storing a directory and loading it again.

 The main record holds the header, the symlink records, one record per bucket, the attribute
 table and the entries of the first bucket. Every other bucket is a file of its own, pinned by
 the tag in its record; only dirty buckets are written. Files carry the tag their writer was
 given. The attribute table is opaque: `sizeOf` tells how long the table at the front of a
 buffer is.
 */
module DirStore {
  import opened Prelude
  import opened LittleEndian
  import opened DirValues
  import opened DirBytes
  import opened Dirnode

  datatype File = File(data: Bytes, mac: Mac)

  datatype Header = Header(
    me: Uuid,
    root: Uuid,
    symlinkCount: nat,
    symlinkBuflen: nat,
    entryCount: nat,
    entryBuflen: nat,
    bucketCount: nat)

  const HEADER_SIZE: nat := 50

  function HeaderBytes(h: Header): (bs: Bytes)
    ensures |bs| == HEADER_SIZE
  {
    (h.me + h.root) + (Le(h.symlinkCount, 4) + Le(h.symlinkBuflen, 4))
    + (Le(h.entryCount, 4) + Le(h.entryBuflen, 4) + Le(h.bucketCount, 2))
  }

  function ParseHeader(bs: Bytes): Header
    requires |bs| >= HEADER_SIZE
  {
    Header(bs[..16], bs[16..32], FromLe(bs[32..36]), FromLe(bs[36..40]),
           FromLe(bs[40..44]), FromLe(bs[44..48]), FromLe(bs[48..50]))
  }

  ghost predicate HeaderFits(h: Header) {
    && h.symlinkCount < 0x1_0000_0000 && h.symlinkBuflen < 0x1_0000_0000
    && h.entryCount < 0x1_0000_0000 && h.entryBuflen < 0x1_0000_0000
    && h.bucketCount < 0x1_0000
  }

  lemma HeaderFields(h: Header, rest: Bytes)
    ensures var bs := HeaderBytes(h) + rest;
      && bs[..16] == h.me && bs[16..32] == h.root
      && bs[32..36] == Le(h.symlinkCount, 4) && bs[36..40] == Le(h.symlinkBuflen, 4)
      && bs[40..44] == Le(h.entryCount, 4) && bs[44..48] == Le(h.entryBuflen, 4)
      && bs[48..50] == Le(h.bucketCount, 2)
  {
    hide Le;
  }

  /** The bytes of the header. */
  lemma HeaderLayout(h: Header)
    requires HeaderFits(h)
    ensures var bs := HeaderBytes(h);
      && |bs| == 50 && bs[..16] == h.me && bs[16..32] == h.root
      && h.bucketCount == bs[48] as nat + 0x100 * bs[49] as nat
      && h.symlinkCount ==
           bs[32] as nat + 0x100 * bs[33] as nat + 0x1_0000 * bs[34] as nat + 0x100_0000 * bs[35] as nat
      && h.symlinkBuflen ==
           bs[36] as nat + 0x100 * bs[37] as nat + 0x1_0000 * bs[38] as nat + 0x100_0000 * bs[39] as nat
      && h.entryCount ==
           bs[40] as nat + 0x100 * bs[41] as nat + 0x1_0000 * bs[42] as nat + 0x100_0000 * bs[43] as nat
      && h.entryBuflen ==
           bs[44] as nat + 0x100 * bs[45] as nat + 0x1_0000 * bs[46] as nat + 0x100_0000 * bs[47] as nat
  {
    hide Le, HeaderBytes;
    var bs := HeaderBytes(h);
    HeaderFields(h, []);
    assert bs + [] == bs;
    Le32(h.symlinkCount);
    Le32(h.symlinkBuflen);
    Le32(h.entryCount);
    Le32(h.entryBuflen);
    Le16(h.bucketCount);
    assert forall k | 0 <= k < 4 :: bs[32 + k] == bs[32..36][k] && bs[36 + k] == bs[36..40][k];
    assert forall k | 0 <= k < 4 :: bs[40 + k] == bs[40..44][k] && bs[44 + k] == bs[44..48][k];
    assert forall k | 0 <= k < 2 :: bs[48 + k] == bs[48..50][k];
  }

  lemma ParseHeaderOf(h: Header, rest: Bytes)
    requires HeaderFits(h)
    ensures ParseHeader(HeaderBytes(h) + rest) == h
  {
    hide Le, FromLe, HeaderBytes;
    HeaderFields(h, rest);
    Le32(h.symlinkCount);
    Le32(h.symlinkBuflen);
    Le32(h.entryCount);
    Le32(h.entryBuflen);
    Le16(h.bucketCount);
  }

  // ---------------------------------------------------------------- the main record

  ghost function MainBytes(h: Header, ls: seq<Link>, bs: seq<Bucket>, table: Bytes): Bytes
    requires LinksMade(ls) && |bs| > 0
  {
    HeaderBytes(h) + (LinksBytes(ls) + (RecordsBytes(bs) + (table + RecsBytes(bs[0].entries))))
  }

  /** The parts of the main record, in their order. */
  lemma MainLayout(h: Header, ls: seq<Link>, bs: seq<Bucket>, table: Bytes)
    requires LinksMade(ls) && |bs| > 0
    ensures var data, a, b := MainBytes(h, ls, bs, table), 50 + SumLinks(ls), 50 + SumLinks(ls) + 40 * |bs|;
      && |data| == b + |table| + SumLen(bs[0].entries)
      && data[..50] == HeaderBytes(h) && data[50..a] == LinksBytes(ls) && data[a..b] == RecordsBytes(bs)
      && data[b..b + |table|] == table && data[b + |table|..] == RecsBytes(bs[0].entries)
  {
    hide HeaderBytes, LinksBytes, RecordsBytes, RecsBytes;
    LinksLength(ls);
    RecsLength(bs[0].entries);
  }

  /** What a load yields. */
  datatype Image = Image(header: Header, links: seq<Link>, table: Bytes, buckets: seq<Bucket>)

  /** The main record: a directory whose first bucket alone has its entries. */
  function ParseMain(bs: Bytes, sizeOf: Bytes -> Option<nat>): Option<Image> {
    if |bs| < HEADER_SIZE then None else
      var h := ParseHeader(bs);
      var links := ParseLinks(bs[HEADER_SIZE..], h.symlinkCount, []);
      if links.None? then None else
        var records := ParseRecords(links.value.1, h.bucketCount, []);
        if records.None? || records.value.0 == [] then None else
          var (buckets, rest) := records.value;
          var size := sizeOf(rest);
          if size.None? || size.value > |rest| then None else
            var recs := ParseRecs(rest[size.value..], buckets[0].numItems, []);
            if recs.None? then None else
              Some(Image(h, links.value.0, rest[..size.value], buckets[0 := buckets[0].(entries := recs.value.0)]))
  }

  /** Loads buckets `i` and up from their files; a missing, malformed or mismatched file fails the load. */
  function LoadOthers(files: map<Uuid, File>, bs: seq<Bucket>, i: nat): Option<seq<Bucket>>
    decreases |bs| - i
  {
    if i >= |bs| then Some(bs)
    else if bs[i].uuid !in files then None
    else
      var file := files[bs[i].uuid];
      var recs := ParseRecs(file.data, bs[i].numItems, []);
      if recs.None? || file.mac != bs[i].mac then None
      else LoadOthers(files, bs[i := bs[i].(entries := recs.value.0, onDisk := true)], i + 1)
  }

  function ParseDir(files: map<Uuid, File>, u: Uuid, sizeOf: Bytes -> Option<nat>): Option<Image> {
    if u !in files then None else
      var main := ParseMain(files[u].data, sizeOf);
      if main.None? then None else
        var others := LoadOthers(files, main.value.buckets, 1);
        if others.None? then None else Some(main.value.(buckets := others.value))
  }

  /** What the file of a loaded bucket has: the tag of the bucket's record, and its entries. */
  ghost predicate Backed(files: map<Uuid, File>, b: Bucket) {
    && b.uuid in files && files[b.uuid].mac == b.mac
    && ParseRecs(files[b.uuid].data, b.numItems, []).Some?
    && ParseRecs(files[b.uuid].data, b.numItems, []).value.0 == b.entries
  }

  /** Every bucket that is loaded from its file is backed by it, and nothing else of it changes. */
  lemma {:induction false} LoadedBacked(files: map<Uuid, File>, bs: seq<Bucket>, i: nat)
    ensures var r := LoadOthers(files, bs, i);
      r.Some? ==> |r.value| == |bs| && forall j | 0 <= j < |bs| ::
        if j < i then r.value[j] == bs[j]
        else r.value[j] == bs[j].(entries := r.value[j].entries, onDisk := true) && Backed(files, r.value[j])
    decreases |bs| - i
  {
    hide ParseRecs;
    if i < |bs| && bs[i].uuid in files {
      var recs := ParseRecs(files[bs[i].uuid].data, bs[i].numItems, []);
      if recs.Some? { LoadedBacked(files, bs[i := bs[i].(entries := recs.value.0, onDisk := true)], i + 1); }
    }
  }

  /** Putting a file with another tag in the place of a bucket's makes the files describe no directory. */
  lemma StaleIsRefused(files: map<Uuid, File>, u: Uuid, sizeOf: Bytes -> Option<nat>, i: nat, file: File)
    requires ParseDir(files, u, sizeOf).Some? && 1 <= i < |ParseDir(files, u, sizeOf).value.buckets|
    requires var b := ParseDir(files, u, sizeOf).value.buckets[i]; b.uuid != u && file.mac != b.mac
    ensures var b := ParseDir(files, u, sizeOf).value.buckets[i];
      ParseDir(files[b.uuid := file], u, sizeOf).None?
  {
    hide ParseMain, ParseRecs, LoadOthers;
    var b := ParseDir(files, u, sizeOf).value.buckets[i];
    var bs := ParseMain(files[u].data, sizeOf).value.buckets;
    LoadedBacked(files, bs, 1);
    LoadedBacked(files[b.uuid := file], bs, 1);
  }

  /** The opaque table ends where it says, whatever follows. */
  ghost predicate SelfDelimiting(sizeOf: Bytes -> Option<nat>, table: Bytes) {
    forall rest: Bytes :: sizeOf(table + rest) == Some(|table|)
  }

  function FirstLoaded(bs: seq<Bucket>): seq<Bucket>
    requires |bs| > 0
  {
    Bares(bs)[0 := Bare(bs[0]).(entries := bs[0].entries)]
  }

  lemma ParseMainOf(h: Header, ls: seq<Link>, bs: seq<Bucket>, table: Bytes, rest: Bytes, sizeOf: Bytes -> Option<nat>)
    requires HeaderFits(h) && h.symlinkCount == |ls| && h.bucketCount == |bs| > 0
    requires LinksShort(ls) && SelfDelimiting(sizeOf, table)
    requires forall b | b in bs :: Small(b)
    requires bs[0].numItems == |bs[0].entries| && forall r | r in bs[0].entries :: NameOk(r.name)
    ensures ParseMain(MainBytes(h, ls, bs, table) + rest, sizeOf) == Some(Image(h, ls, table, FirstLoaded(bs)))
  {
    hide HeaderBytes, ParseHeader, LinksBytes, RecordsBytes, RecsBytes, ParseLinks, ParseRecords, ParseRecs,
      HeaderFits, Small, MakeLink;
    var r4 := RecsBytes(bs[0].entries) + rest;
    var r3 := table + r4;
    var r2 := RecordsBytes(bs) + r3;
    var r1 := LinksBytes(ls) + r2;
    assert MainBytes(h, ls, bs, table) + rest == HeaderBytes(h) + r1 by {
      Regroup4(HeaderBytes(h), LinksBytes(ls), RecordsBytes(bs), table, RecsBytes(bs[0].entries), rest);
    }
    ParseHeaderOf(h, r1);
    Pieces(HeaderBytes(h), r1);
    ParseLinksOf(ls, r2, []);
    assert [] + ls == ls;
    ParseRecordsOf(bs, r3, []);
    assert [] + Bares(bs) == Bares(bs);
    assert sizeOf(table + r4) == Some(|table|);
    Pieces(table, r4);
    ParseRecsOf(bs[0].entries, rest, []);
    assert [] + bs[0].entries == bs[0].entries;
  }

  lemma Regroup4(a: Bytes, b: Bytes, c: Bytes, d: Bytes, e: Bytes, rest: Bytes)
    ensures a + (b + (c + (d + e))) + rest == a + (b + (c + (d + (e + rest))))
  {
  }

  // ---------------------------------------------------------------- buckets and their files

  ghost predicate Pinned(files: map<Uuid, File>, b: Bucket) {
    b.onDisk && b.uuid in files && files[b.uuid] == File(RecsBytes(b.entries), b.mac)
  }

  /** Every bucket but the first is dirty or has its file. */
  ghost predicate InSync(files: map<Uuid, File>, bs: seq<Bucket>) {
    && |bs| > 0 && !bs[0].onDisk
    && forall i | 1 <= i < |bs| :: bs[i].isDirty || Pinned(files, bs[i])
  }

  /** Directory operations only dirty buckets or add dirty ones, so they keep the files in step. */
  lemma TouchedInSync(files: map<Uuid, File>, before: seq<Bucket>, after: seq<Bucket>)
    requires InSync(files, before) && Touched(before, after)
    ensures InSync(files, after)
  {
    hide Pinned;
    assert SameOrDirty(before[0], after[0]);
    forall i | 1 <= i < |after| ensures after[i].isDirty || Pinned(files, after[i]) {
      if i < |before| { assert SameOrDirty(before[i], after[i]); }
    }
  }

  /** A bucket as the load makes it. */
  ghost predicate Clean(b: Bucket) {
    && !b.isDirty && b.capacity == BUCKET_CAPACITY && b.numItems == |b.entries|
    && forall r | r in b.entries :: NameOk(r.name)
  }

  /** Buckets `i` and up of a loaded directory, without their entries. */
  ghost function Unloaded(bs: seq<Bucket>, i: nat): seq<Bucket> {
    seq(|bs|, j requires 0 <= j < |bs| => if j < i then bs[j] else Bare(bs[j]))
  }

  lemma {:induction false} LoadOthersOf(files: map<Uuid, File>, bs: seq<Bucket>, i: nat)
    requires 1 <= i <= |bs|
    requires forall j | i <= j < |bs| :: Clean(bs[j]) && Pinned(files, bs[j])
    ensures LoadOthers(files, Unloaded(bs, i), i) == Some(bs)
    decreases |bs| - i
  {
    hide ParseRecs;
    var us := Unloaded(bs, i);
    if i == |bs| {
      assert us == bs;
    } else {
      assert Clean(bs[i]) && Pinned(files, bs[i]);
      ParseRecsOf(bs[i].entries, [], []);
      assert RecsBytes(bs[i].entries) + [] == RecsBytes(bs[i].entries);
      assert [] + bs[i].entries == bs[i].entries;
      assert us[i].(entries := bs[i].entries, onDisk := true) == bs[i];
      assert us[i := bs[i]] == Unloaded(bs, i + 1);
      LoadOthersOf(files, bs, i + 1);
    }
  }

  // ---------------------------------------------------------------- sizes

  lemma {:induction false} SumLenBound(rs: seq<Rec>)
    requires forall r | r in rs :: NameOk(r.name)
    ensures SumLen(rs) <= 280 * |rs|
  {
    if rs == [] {
    } else {
      assert NameOk(rs[|rs| - 1].name);
      SumLenBound(rs[..|rs| - 1]);
    }
  }

  lemma {:induction false} SumItemsBound(bs: seq<Bucket>)
    requires forall i | 0 <= i < |bs| :: BucketSound(bs[i])
    ensures SumItems(bs) <= BUCKET_CAPACITY * |bs|
  {
    if bs == [] {
    } else {
      SumItemsBound(bs[..|bs| - 1]);
    }
  }

  lemma BucketNamesOk(rs: seq<Rec>, bs: seq<Bucket>, i: nat)
    requires Stored(rs, bs) && NamesOk(rs) && i < |bs|
    ensures BucketSound(bs[i]) && forall r | r in bs[i].entries :: NameOk(r.name)
  {
    hide BucketsSound, BucketSound, Gather, NameOk;
    SoundAt(bs, i);
    UpdateGather(bs, i, bs[i]);
    forall r | r in bs[i].entries ensures NameOk(r.name) {
      assert r in multiset(bs[i].entries);
      assert r in multiset(rs);
    }
  }

  lemma BucketSmall(b: Bucket)
    requires BucketSound(b) && forall r | r in b.entries :: NameOk(r.name)
    ensures Small(b)
  {
    SumLenBound(b.entries);
  }

  function HeaderOf(d: Dirnode): Header
    reads d
  {
    Header(d.myUuid, d.rootUuid, d.symlinkCount, d.symlinkBuflen, d.entryCount, d.entryBuflen, d.bucketCount)
  }

  /** What the widths of the header's fields and of a symlink's length byte demand. */
  predicate Storable(d: Dirnode)
    reads d
  {
    && |d.buckets| < 0x1_0000
    && |d.symlinks| < 0x1_0000_0000 && d.symlinkBuflen < 0x1_0000_0000
    && LinksShort(d.symlinks)
  }

  lemma HeaderOfFits(d: Dirnode)
    requires d.Valid() && Storable(d)
    ensures HeaderFits(HeaderOf(d))
  {
    hide Indexed, SumLen, SumItems, SumSizes, Gather, SumLinks, BucketSound, NameOk, HasBucket, LinksShort, LinkOk;
    SumItemsBound(d.buckets);
    SumLenBound(d.entries);
  }

  // ---------------------------------------------------------------- writing

  method PutAt(buffer: array<byte>, at: nat, data: Bytes)
    requires at + |data| <= buffer.Length
    modifies buffer
    ensures buffer[..] == old(buffer[..at]) + data + old(buffer[at + |data|..])
  {
    for i := 0 to |data|
      invariant buffer[..at] == old(buffer[..at])
      invariant forall j | 0 <= j < i :: buffer[at + j] == data[j]
      invariant buffer[at + |data|..] == old(buffer[at + |data|..])
    {
      buffer[at + i] := data[i];
    }
    assert buffer[at..at + |data|] == data;
    assert buffer[..] == buffer[..at] + buffer[at..at + |data|] + buffer[at + |data|..];
  }

  /** Writes at the moving output position. */
  method Append(buffer: array<byte>, at: nat, data: Bytes) returns (end: nat)
    requires at + |data| <= buffer.Length
    modifies buffer
    ensures end == at + |data| && buffer[..end] == old(buffer[..at]) + data
  {
    PutAt(buffer, at, data);
    end := at + |data|;
    assert buffer[..end] == buffer[..][..end];
  }

  method PutRecs(buffer: array<byte>, at: nat, rs: seq<Rec>) returns (end: nat)
    requires at + |RecsBytes(rs)| <= buffer.Length
    modifies buffer
    ensures end == at + |RecsBytes(rs)| && buffer[..end] == old(buffer[..at]) + RecsBytes(rs)
  {
    hide RecsBytes, RecBytes;
    end := at;
    assert RecsBytes([]) == [] by { NoRecs(); }
    for i := 0 to |rs|
      invariant end == at + |RecsBytes(rs[..i])| <= buffer.Length
      invariant buffer[..end] == old(buffer[..at]) + RecsBytes(rs[..i])
    {
      RecsPrefix(rs, i);
      end := Append(buffer, end, RecBytes(rs[i]));
    }
    assert rs[..|rs|] == rs;
  }

  lemma NoRecs()
    ensures RecsBytes([]) == []
  {
  }

  lemma RecsPrefix(rs: seq<Rec>, i: nat)
    requires i < |rs|
    ensures RecsBytes(rs[..i + 1]) == RecsBytes(rs[..i]) + RecBytes(rs[i])
    ensures |RecsBytes(rs[..i + 1])| <= |RecsBytes(rs)|
  {
    hide RecsBytes, RecBytes;
    assert rs[..i + 1] == rs[..i] + [rs[i]];
    RecsSnoc(rs[..i], rs[i]);
    RecsLength(rs[..i + 1]);
    RecsLength(rs);
    assert rs == rs[..i + 1] + rs[i + 1..];
    SumLenConcat(rs[..i + 1], rs[i + 1..]);
  }

  method PutLinks(buffer: array<byte>, at: nat, ls: seq<Link>) returns (end: nat)
    requires LinksMade(ls) && at + |LinksBytes(ls)| <= buffer.Length
    modifies buffer
    ensures end == at + |LinksBytes(ls)| && buffer[..end] == old(buffer[..at]) + LinksBytes(ls)
  {
    hide LinksBytes, LinkBytes, MakeLink;
    end := at;
    assert LinksBytes([]) == [] by { NoLinks(); }
    for i := 0 to |ls|
      invariant end == at + |LinksBytes(ls[..i])| <= buffer.Length
      invariant buffer[..end] == old(buffer[..at]) + LinksBytes(ls[..i])
    {
      LinksPrefix(ls, i);
      end := Append(buffer, end, LinkBytes(ls[i]));
    }
    assert ls[..|ls|] == ls;
  }

  lemma LinksPrefix(ls: seq<Link>, i: nat)
    requires LinksMade(ls) && i < |ls|
    ensures LinksBytes(ls[..i + 1]) == LinksBytes(ls[..i]) + LinkBytes(ls[i])
    ensures |LinksBytes(ls[..i + 1])| <= |LinksBytes(ls)|
  {
    hide LinksBytes, LinkBytes, MakeLink;
    assert ls[..i + 1] == ls[..i] + [ls[i]];
    LinksSnoc(ls[..i], ls[i]);
    LinksLength(ls[..i + 1]);
    LinksLength(ls);
    assert ls == ls[..i + 1] + ls[i + 1..];
    SumLinksConcat(ls[..i + 1], ls[i + 1..]);
  }

  method PutRecords(buffer: array<byte>, at: nat, bs: seq<Bucket>) returns (end: nat)
    requires at + 40 * |bs| <= buffer.Length
    modifies buffer
    ensures end == at + 40 * |bs| && buffer[..end] == old(buffer[..at]) + RecordsBytes(bs)
  {
    hide RecordBytes;
    end := at;
    for i := 0 to |bs|
      invariant end == at + 40 * i
      invariant buffer[..end] == old(buffer[..at]) + RecordsBytes(bs[..i])
    {
      end := Append(buffer, end, RecordBytes(bs[i]));
      assert bs[..i + 1] == bs[..i] + [bs[i]];
      RecordsConcat(bs[..i], [bs[i]]);
      RecordsOne(bs[i]);
    }
    assert bs[..|bs|] == bs;
  }

  ghost function MainOf(d: Dirnode): Bytes
    reads d
    requires LinksMade(d.symlinks) && |d.buckets| > 0
  {
    MainBytes(HeaderOf(d), d.symlinks, d.buckets, d.attributes)
  }

  /** `__get_bucket0_size`. */
  function MainSize(d: Dirnode): nat
    reads d
    requires |d.buckets| > 0
  {
    HEADER_SIZE + d.symlinkBuflen + 40 * d.bucketCount + |d.attributes| + d.buckets[0].sizeBytes
  }

  /** The computed size is the size of the contents, plus what over-long symlinks have left behind. */
  lemma MainFits(d: Dirnode)
    requires d.Valid()
    ensures LinksMade(d.symlinks) && |d.buckets| > 0
    ensures |MainOf(d)| + d.Slack() == MainSize(d) && d.Slack() >= 0
    ensures |LinksBytes(d.symlinks)| == SumLinks(d.symlinks)
    ensures |RecsBytes(d.buckets[0].entries)| == d.buckets[0].sizeBytes
  {
    hide Indexed, SumLen, SumItems, SumSizes, Gather, HasBucket, NamesOk, HeaderBytes, LinksBytes, RecordsBytes,
      RecsBytes, SumLinks, MakeLink;
    assert forall l | l in d.symlinks :: LinkOk(l);
    LinksLength(d.symlinks);
    SoundAt(d.buckets, 0);
    RecsLength(d.buckets[0].entries);
  }

  /** Fills the buffer front to back; returns where the bucket records start. */
  method Serialize(d: Dirnode, buffer: array<byte>) returns (records: nat)
    requires d.Valid() && buffer.Length == MainSize(d)
    modifies buffer
    ensures LinksMade(d.symlinks) && |d.buckets| > 0
    ensures records == HEADER_SIZE + |LinksBytes(d.symlinks)|
    ensures MainOf(d) <= buffer[..]
    ensures d.Slack() == 0 ==> buffer[..] == MainOf(d)
  {
    hide Indexed, Stored, SumLen, HasBucket, NamesOk, HeaderBytes, LinksBytes, RecordsBytes, RecsBytes, SumLinks,
      LinksSound, LinksMade;
    MainFits(d);
    var at := Append(buffer, 0, HeaderBytes(HeaderOf(d)));
    records := PutLinks(buffer, at, d.symlinks);
    at := PutRecords(buffer, records, d.buckets);
    at := Append(buffer, at, d.attributes);
    at := PutRecs(buffer, at, d.buckets[0].entries);
    Nest(HeaderBytes(HeaderOf(d)), LinksBytes(d.symlinks), RecordsBytes(d.buckets), d.attributes,
         RecsBytes(d.buckets[0].entries));
    assert buffer[..at] == MainOf(d);
    assert buffer[..] == buffer[..at] + buffer[at..];
  }

  lemma Nest(a: Bytes, b: Bytes, c: Bytes, d: Bytes, e: Bytes)
    ensures [] + a + b + c + d + e == a + (b + (c + (d + e)))
  {
  }

  /** `bucket_serialize` into a buffer of the bucket's size. */
  method SerializeBucket(b: Bucket) returns (data: Bytes)
    requires BucketSound(b)
    ensures data == RecsBytes(b.entries) && |data| == b.sizeBytes
  {
    hide RecsBytes;
    RecsLength(b.entries);
    var buffer := new byte[b.sizeBytes];
    var end := PutRecs(buffer, 0, b.entries);
    data := buffer[..];
    assert data == buffer[..end];
  }

  /** Files of no concern to the directory are as they were. */
  ghost predicate OthersKept(files: map<Uuid, File>, files': map<Uuid, File>, bs: seq<Bucket>) {
    forall u: Uuid | !HasBucket(bs, u) ::
      (u in files' <==> u in files) && (u in files ==> files'[u] == files[u])
  }

  predicate DirtyEmpty(b: Bucket) {
    b.isDirty && b.numItems == 0
  }

  /** The first bucket and those behind it that are not left empty, in order. */
  function Survivors(bs: seq<Bucket>): (r: seq<Bucket>)
    ensures |r| <= |bs|
  {
    if |bs| <= 1 then bs else
      var n := |bs| - 1;
      Survivors(bs[..n]) + if DirtyEmpty(bs[n]) then [] else [bs[n]]
  }

  function Dropped(bs: seq<Bucket>): set<Uuid> {
    set i | 1 <= i < |bs| && DirtyEmpty(bs[i]) :: bs[i].uuid
  }

  /** Buckets left empty go, with their files; the first bucket always stays. */
  method DropEmpty(d: Dirnode, files: map<Uuid, File>) returns (files': map<Uuid, File>)
    requires d.Valid() && InSync(files, d.buckets)
    modifies d`buckets, d`bucketCount
    ensures d.Valid() && InSync(files', d.buckets)
    ensures d.buckets == Survivors(old(d.buckets))
    ensures files' == files - Dropped(old(d.buckets))
  {
    hide Indexed, Stored, SumLen, HasBucket, NamesOk, LinksSound, SumLinks, InSync, Survivors, Dropped, DirtyEmpty;
    files' := files;
    var i := 1;
    OneBucket(files, d.buckets);
    ghost var bs, k := d.buckets, 1;
    NextBucket(bs, 1);
    assert bs == bs[..1] + bs[1..] && files - {} == files;
    while i < |d.buckets|
      invariant 1 <= i <= |d.buckets| && i <= k <= |bs| && d.bucketCount == |d.buckets|
      invariant Stored(d.entries, d.buckets) && !HasBucket(d.buckets, d.myUuid)
      invariant InSync(files', d.buckets)
      invariant d.buckets == Survivors(bs[..k]) + bs[k..] && i == |Survivors(bs[..k])|
      invariant files' == files - Dropped(bs[..k])
      decreases |d.buckets| - i
    {
      NextBucket(bs, k);
      var b := d.buckets[i];
      Passing(Survivors(bs[..k]), bs, k);
      if DirtyEmpty(b) {
        EmptyIs(b);
        RemoveEmptyStored(d.entries, d.buckets, i);
        RemoveInSync(files', d.entries, d.buckets, i, d.myUuid);
        d.bucketCount := d.bucketCount - 1;
        files' := files' - {b.uuid};
        d.buckets := d.buckets[..i] + d.buckets[i + 1..];
      } else {
        i := i + 1;
      }
      k := k + 1;
    }
    assert bs[..k] == bs;
  }

  lemma Passing(before: seq<Bucket>, bs: seq<Bucket>, k: nat)
    requires k <= |bs|
    ensures k < |bs| ==>
      var all, i := before + bs[k..], |before|;
      && all[i] == bs[k]
      && all[..i] + all[i + 1..] == before + [] + bs[k + 1..]
      && all == before + [bs[k]] + bs[k + 1..]
  {
  }

  lemma EmptyIs(b: Bucket)
    requires DirtyEmpty(b)
    ensures b.numItems == 0
  {
  }

  /** What passing bucket `k` adds to the survivors and the dropped. */
  lemma NextBucket(bs: seq<Bucket>, k: nat)
    requires 1 <= k
    ensures k < |bs| ==>
      && Survivors(bs[..k + 1]) == Survivors(bs[..k]) + (if DirtyEmpty(bs[k]) then [] else [bs[k]])
      && Dropped(bs[..k + 1]) == Dropped(bs[..k]) + (if DirtyEmpty(bs[k]) then {bs[k].uuid} else {})
    ensures k == 1 <= |bs| ==> Survivors(bs[..k]) == bs[..k] && Dropped(bs[..k]) == {}
  {
    hide DirtyEmpty;
    if k < |bs| {
      assert bs[..k + 1][..k] == bs[..k];
      forall u ensures u in Dropped(bs[..k + 1]) <==> u in Dropped(bs[..k]) || (DirtyEmpty(bs[k]) && u == bs[k].uuid) {
        if u in Dropped(bs[..k]) {
          var i :| 1 <= i < k && DirtyEmpty(bs[..k][i]) && bs[..k][i].uuid == u;
          assert bs[..k + 1][i] == bs[..k][i];
        }
        if DirtyEmpty(bs[k]) && u == bs[k].uuid { assert bs[..k + 1][k] == bs[k]; }
        if u in Dropped(bs[..k + 1]) {
          var i :| 1 <= i < k + 1 && DirtyEmpty(bs[..k + 1][i]) && bs[..k + 1][i].uuid == u;
          assert i < k ==> bs[..k][i] == bs[..k + 1][i];
        }
      }
    }
  }

  lemma OneBucket(files: map<Uuid, File>, bs: seq<Bucket>)
    requires InSync(files, bs)
    ensures |bs| > 0
  {
  }

  lemma RemoveInSync(files: map<Uuid, File>, rs: seq<Rec>, bs: seq<Bucket>, i: nat, me: Uuid)
    requires InSync(files, bs) && Stored(rs, bs) && 1 <= i < |bs| && !HasBucket(bs, me)
    ensures InSync(files - {bs[i].uuid}, bs[..i] + bs[i + 1..]) && !HasBucket(bs[..i] + bs[i + 1..], me)
  {
    hide Gather, SumItems, SumSizes, SumLen, BucketSound, RecsBytes;
    var bs' := bs[..i] + bs[i + 1..];
    assert forall j | 0 <= j < |bs'| :: bs'[j] == bs[if j < i then j else j + 1];
    forall j | 1 <= j < |bs'| ensures bs'[j].isDirty || Pinned(files - {bs[i].uuid}, bs'[j]) {
      var k := if j < i then j else j + 1;
      assert bs[k].isDirty || Pinned(files, bs[k]);
      assert bs[k].uuid != bs[i].uuid;
    }
  }

  // ---------------------------------------------------------------- the dirty buckets

  function Sealed(b: Bucket, mac: Mac): Bucket {
    b.(isDirty := false, onDisk := true, mac := mac)
  }

  /** Only a dirty bucket is written anew. */
  function Rewritten(b: Bucket, mac: Mac): Bucket {
    if b.isDirty then Sealed(b, mac) else b
  }

  lemma RetagStored(rs: seq<Rec>, bs: seq<Bucket>, i: nat, b': Bucket)
    requires Stored(rs, bs) && i < |bs|
    requires b' == bs[i].(isDirty := b'.isDirty, onDisk := b'.onDisk, mac := b'.mac)
    ensures Stored(rs, bs[i := b'])
  {
    hide Gather, SumItems, SumSizes, SumLen, BucketsSound;
    SoundAt(bs, i);
    ReplaceSound(bs, i, b');
    UpdateSums(bs, i, b');
    UpdateGather(bs, i, b');
    CancelBag(multiset(Gather(bs[i := b'])), multiset(Gather(bs)), multiset(b'.entries));
  }

  lemma CancelBag(a: multiset<Rec>, b: multiset<Rec>, c: multiset<Rec>)
    requires a + c == b + c
    ensures a == b
  {
    forall x ensures a[x] == b[x] {
      assert (a + c)[x] == (b + c)[x];
    }
  }

  /** Patching the tag of bucket `i` in the buffer gives the main record with that bucket's new tag. */
  lemma PatchMain(h: Header, ls: seq<Link>, bs: seq<Bucket>, table: Bytes, buf: Bytes, i: nat, b': Bucket)
    requires LinksMade(ls) && 1 <= i < |bs| && MainBytes(h, ls, bs, table) <= buf
    requires b'.numItems == bs[i].numItems && b'.sizeBytes == bs[i].sizeBytes && b'.uuid == bs[i].uuid
    ensures var at := HEADER_SIZE + |LinksBytes(ls)| + 40 * i + 24;
      at + 16 <= |buf| && MainBytes(h, ls, bs[i := b'], table) <= buf[..at] + b'.mac + buf[at + 16..]
  {
    hide HeaderBytes, LinksBytes, RecordsBytes, RecsBytes, LinksMade;
    PatchMac(bs, i, b');
    PatchMiddle(HeaderBytes(h), LinksBytes(ls), RecordsBytes(bs), table + RecsBytes(bs[0].entries), buf,
                40 * i + 24, b'.mac);
  }

  lemma PatchMiddle(a: Bytes, b: Bytes, c: Bytes, d: Bytes, buf: Bytes, k: nat, m: Bytes)
    requires a + (b + (c + d)) <= buf && k + |m| <= |c|
    ensures var at := |a| + |b| + k;
      at + |m| <= |buf|
      && a + (b + ((c[..k] + m + c[k + |m|..]) + d)) <= buf[..at] + m + buf[at + |m|..]
  {
    var at, all, c' := |a| + |b| + k, a + (b + (c + d)), c[..k] + m + c[k + |m|..];
    var rest := buf[|all|..];
    assert buf == all + rest;
    assert buf[..at] == a + (b + c[..k]);
    assert buf[at + |m|..] == c[k + |m|..] + d + rest;
    assert buf[..at] + m + buf[at + |m|..] == a + (b + (c' + d)) + rest;
  }

  /** Buckets before `i` have their files; the others have theirs or are dirty. */
  ghost predicate SyncedTo(files: map<Uuid, File>, bs: seq<Bucket>, i: nat) {
    && (forall j | 1 <= j < i && j < |bs| :: !bs[j].isDirty && Pinned(files, bs[j]))
    && (forall j | 1 <= j < |bs| :: bs[j].isDirty || Pinned(files, bs[j]))
  }

  lemma SyncStep(files: map<Uuid, File>, rs: seq<Rec>, bs: seq<Bucket>, i: nat, mac: Mac)
    requires SyncedTo(files, bs, i) && Stored(rs, bs) && 1 <= i < |bs|
    ensures var b := bs[i];
      SyncedTo(files[b.uuid := File(RecsBytes(b.entries), mac)], bs[i := Sealed(b, mac)], i + 1)
  {
    hide Gather, SumItems, SumSizes, SumLen, BucketSound, RecsBytes, Pinned;
    var files', b' := files[bs[i].uuid := File(RecsBytes(bs[i].entries), mac)], Sealed(bs[i], mac);
    assert Pinned(files', b') by { Pins(files, bs[i], mac); }
    forall j | 1 <= j < |bs| && j != i && Pinned(files, bs[j]) ensures Pinned(files', bs[j]) {
      assert bs[j].uuid != bs[i].uuid;
      PinKept(files, files', bs[j], bs[i].uuid, File(RecsBytes(bs[i].entries), mac));
    }
  }

  lemma Pins(files: map<Uuid, File>, b: Bucket, mac: Mac)
    ensures Pinned(files[b.uuid := File(RecsBytes(b.entries), mac)], Sealed(b, mac))
  {
  }

  lemma PinKept(files: map<Uuid, File>, files': map<Uuid, File>, b: Bucket, u: Uuid, f: File)
    requires Pinned(files, b) && b.uuid != u && files' == files[u := f]
    ensures Pinned(files', b)
  {
  }

  lemma SealTouches(bs: seq<Bucket>, i: nat, b': Bucket, u: Uuid)
    requires i < |bs| && b'.uuid == bs[i].uuid
    ensures HasBucket(bs[i := b'], u) == HasBucket(bs, u)
  {
    var bs' := bs[i := b'];
    assert forall j | 0 <= j < |bs| :: bs'[j].uuid == bs[j].uuid;
  }

  lemma KeptWrite(files: map<Uuid, File>, files': map<Uuid, File>, bs: seq<Bucket>, u: Uuid, f: File)
    requires OthersKept(files, files', bs) && HasBucket(bs, u)
    ensures OthersKept(files, files'[u := f], bs)
  {
  }

  /** Writes every dirty bucket to its own file and its new tag into its record in the buffer. */
  method StoreOthers(d: Dirnode, buffer: array<byte>, records: nat, files: map<Uuid, File>, macs: nat -> Mac)
    returns (files': map<Uuid, File>)
    requires d.Valid() && SyncedTo(files, d.buckets, 0)
    requires LinksMade(d.symlinks) && |d.buckets| > 0
    requires records == HEADER_SIZE + |LinksBytes(d.symlinks)| && MainOf(d) <= buffer[..]
    modifies d`buckets, buffer
    ensures d.Valid() && |d.buckets| == |old(d.buckets)| && d.buckets[0] == old(d.buckets)[0]
    ensures SyncedTo(files', d.buckets, |d.buckets|)
    ensures MainOf(d) <= buffer[..]
    ensures forall j | 1 <= j < |d.buckets| :: d.buckets[j] == Rewritten(old(d.buckets)[j], macs(j))
    ensures forall u :: HasBucket(d.buckets, u) == HasBucket(old(d.buckets), u)
    ensures OthersKept(files, files', d.buckets)
  {
    hide Indexed, Stored, SumLen, HasBucket, NamesOk, LinksSound, LinksMade, SumLinks, SyncedTo, MainBytes, RecsBytes,
      LinksBytes, OthersKept;
    files' := files;
    var i := 1;
    SyncedStart(files, d.buckets);
    KeptSelf(files, d.buckets);
    while i < |d.buckets|
      invariant 1 <= i <= |d.buckets| == |old(d.buckets)| && d.buckets[0] == old(d.buckets)[0]
      invariant d.Valid() && SyncedTo(files', d.buckets, i)
      invariant MainOf(d) <= buffer[..]
      invariant forall j | 1 <= j < i :: d.buckets[j] == Rewritten(old(d.buckets)[j], macs(j))
      invariant forall j | i <= j < |d.buckets| :: d.buckets[j] == old(d.buckets)[j]
      invariant forall u :: HasBucket(d.buckets, u) == HasBucket(old(d.buckets), u)
      invariant OthersKept(files, files', d.buckets)
    {
      if d.buckets[i].isDirty {
        StoreOne(d, buffer, records, files, files', i, macs(i));
        var b := d.buckets[i];
        assert BucketSound(b) by { StoredSound(d.entries, d.buckets, i); }
        var data := SerializeBucket(b);
        files' := files'[b.uuid := File(data, macs(i))];
        PutAt(buffer, records + 40 * i + 24, macs(i));
        d.buckets := d.buckets[i := Sealed(b, macs(i))];
      } else {
        SyncedSkip(files', d.buckets, i);
      }
      i := i + 1;
    }
  }

  lemma KeptSelf(files: map<Uuid, File>, bs: seq<Bucket>)
    ensures OthersKept(files, files, bs)
  {
  }

  lemma SyncedStart(files: map<Uuid, File>, bs: seq<Bucket>)
    requires SyncedTo(files, bs, 0)
    ensures SyncedTo(files, bs, 1)
  {
  }

  lemma SyncedSkip(files: map<Uuid, File>, bs: seq<Bucket>, i: nat)
    requires SyncedTo(files, bs, i) && 1 <= i < |bs| && !bs[i].isDirty
    ensures SyncedTo(files, bs, i + 1)
  {
  }

  lemma StoredBucketsSound(rs: seq<Rec>, bs: seq<Bucket>)
    requires Stored(rs, bs)
    ensures BucketsSound(bs)
  {
  }

  lemma StoredSound(rs: seq<Rec>, bs: seq<Bucket>, i: nat)
    requires Stored(rs, bs) && i < |bs|
    ensures BucketSound(bs[i])
  {
  }

  /** What writing bucket `i` preserves. */
  lemma StoreOne(d: Dirnode, buffer: array<byte>, records: nat, files: map<Uuid, File>, files': map<Uuid, File>,
                 i: nat, mac: Mac)
    requires d.Valid() && SyncedTo(files', d.buckets, i) && 1 <= i < |d.buckets|
    requires LinksMade(d.symlinks)
    requires records == HEADER_SIZE + |LinksBytes(d.symlinks)| && MainOf(d) <= buffer[..]
    requires OthersKept(files, files', d.buckets)
    ensures records + 40 * i + 40 <= buffer.Length
    ensures var b, at := d.buckets[i], records + 40 * i + 24;
      var bs', files'' := d.buckets[i := Sealed(b, mac)], files'[b.uuid := File(RecsBytes(b.entries), mac)];
      && Stored(d.entries, bs')
      && SyncedTo(files'', bs', i + 1)
      && MainBytes(HeaderOf(d), d.symlinks, bs', d.attributes) <= buffer[..at] + mac + buffer[at + 16..]
      && (forall u :: HasBucket(bs', u) == HasBucket(d.buckets, u))
      && OthersKept(files, files'', bs')
  {
    hide Indexed, Stored, SumLen, HasBucket, NamesOk, LinksSound, LinksMade, SumLinks, SyncedTo, MainBytes, RecsBytes,
      LinksBytes, OthersKept;
    var b, at := d.buckets[i], records + 40 * i + 24;
    var b' := Sealed(b, mac);
    PatchMain(HeaderOf(d), d.symlinks, d.buckets, d.attributes, buffer[..], i, b');
    assert buffer[..][..at] == buffer[..at] && buffer[..][at + 16..] == buffer[at + 16..];
    RetagStored(d.entries, d.buckets, i, b');
    SyncStep(files', d.entries, d.buckets, i, mac);
    forall u ensures HasBucket(d.buckets[i := b'], u) == HasBucket(d.buckets, u) {
      SealTouches(d.buckets, i, b', u);
    }
    assert HasBucket(d.buckets, b.uuid) by { Has(d.buckets, i); }
    KeptWrite(files, files', d.buckets, b.uuid, File(RecsBytes(b.entries), mac));
    KeptSame(files, files'[b.uuid := File(RecsBytes(b.entries), mac)], d.buckets, d.buckets[i := b']);
  }

  lemma Has(bs: seq<Bucket>, i: nat)
    requires i < |bs|
    ensures HasBucket(bs, bs[i].uuid)
  {
  }

  lemma KeptSame(files: map<Uuid, File>, files': map<Uuid, File>, bs: seq<Bucket>, bs': seq<Bucket>)
    requires OthersKept(files, files', bs) && forall u :: HasBucket(bs', u) == HasBucket(bs, u)
    ensures OthersKept(files, files', bs')
  {
    hide HasBucket;
  }

  // ---------------------------------------------------------------- the whole store

  function ImageOf(d: Dirnode): Image
    reads d
  {
    Image(HeaderOf(d), d.symlinks, d.attributes, d.buckets)
  }

  /** No bucket is dirty and every one but the first has its file. */
  ghost predicate Settled(files: map<Uuid, File>, bs: seq<Bucket>) {
    && |bs| > 0 && !bs[0].isDirty && !bs[0].onDisk
    && SyncedTo(files, bs, |bs|)
  }

  lemma SettledInSync(files: map<Uuid, File>, bs: seq<Bucket>)
    requires Settled(files, bs)
    ensures InSync(files, bs) && forall b | b in bs :: !b.isDirty
  {
  }

  /** A settled directory is read back as it is. */
  lemma ParseStored(d: Dirnode, files: map<Uuid, File>, sizeOf: Bytes -> Option<nat>)
    requires d.Valid() && Storable(d) && Settled(files, d.buckets) && SelfDelimiting(sizeOf, d.attributes)
    requires LinksMade(d.symlinks) && d.myUuid in files && MainOf(d) <= files[d.myUuid].data
    ensures ParseDir(files, d.myUuid, sizeOf) == Some(ImageOf(d))
  {
    hide Indexed, Stored, SumLen, HasBucket, LinksSound, LinksShort, LinksMade, SumLinks, MainBytes, HeaderFits,
      ParseMain, LoadOthers, NamesOk, BucketSound, NameOk, Pinned, SelfDelimiting;
    var bs, data := d.buckets, files[d.myUuid].data;
    HeaderOfFits(d);
    forall i | 0 <= i < |bs| ensures BucketSound(bs[i]) && Small(bs[i]) && Clean(bs[i]) {
      BucketNamesOk(d.entries, bs, i);
      BucketSmall(bs[i]);
      assert Clean(bs[i]) by { CleanOf(bs[i]); }
    }
    CountsAgree(d);
    var rest := data[|MainOf(d)|..];
    assert data == MainOf(d) + rest;
    ParseMainOf(HeaderOf(d), d.symlinks, bs, d.attributes, rest, sizeOf);
    assert FirstLoaded(bs) == Unloaded(bs, 1);
    LoadOthersOf(files, bs, 1);
  }

  lemma ParsedHeaderFits(bs: Bytes)
    requires |bs| >= HEADER_SIZE
    ensures HeaderFits(ParseHeader(bs))
  {
    hide FromLe;
    Widths();
    FromLeBound(bs[32..36]);
    FromLeBound(bs[36..40]);
    FromLeBound(bs[40..44]);
    FromLeBound(bs[44..48]);
    FromLeBound(bs[48..50]);
  }

  /** Whatever the files hold, only a directory within the widths of the stored form can be read from them. */
  lemma ParsedIsStorable(d: Dirnode, files: map<Uuid, File>, sizeOf: Bytes -> Option<nat>)
    requires d.Valid() && ParseDir(files, d.myUuid, sizeOf) == Some(ImageOf(d))
    ensures Storable(d)
  {
    hide Indexed, Stored, SumLen, HasBucket, SumLinks, ParseLinks, ParseRecords, ParseRecs, LoadOthers, NamesOk,
      ParseHeader, LinkBounded, MakeLink;
    var data := files[d.myUuid].data;
    ParsedHeaderFits(data);
    ParsedLinksBounded(data[HEADER_SIZE..], ParseHeader(data).symlinkCount, []);
    forall l | l in d.symlinks ensures l == MakeLink(l.uuid, l.target) && |l.target| <= 235 && 0 !in l.target {
      assert LinkOk(l) && LinkBounded(l);
      BoundedIsShort(l);
    }
  }

  lemma CleanOf(b: Bucket)
    requires BucketSound(b) && !b.isDirty && forall r | r in b.entries :: NameOk(r.name)
    ensures Clean(b)
  {
  }

  lemma CountsAgree(d: Dirnode)
    requires d.Valid()
    ensures d.symlinkCount == |d.symlinks| && d.bucketCount == |d.buckets| > 0
  {
  }

  /**
   Stores a directory: afterwards the files read back as exactly this directory if and only if it is within
   the widths of the stored form, and no other file has changed. `macs(i)` and `mainMac` are the tags the
   writes are given.
   */
  method Store(d: Dirnode, files: map<Uuid, File>, macs: nat -> Mac, mainMac: Mac, ghost sizeOf: Bytes -> Option<nat>)
    returns (files': map<Uuid, File>)
    requires d.Valid() && InSync(files, d.buckets) && SelfDelimiting(sizeOf, d.attributes)
    modifies d`buckets, d`bucketCount
    ensures d.Valid() && (old(Storable(d)) ==> Storable(d))
    ensures d.buckets == StoredBuckets(old(d.buckets), macs)
    ensures InSync(files', d.buckets) && (forall b | b in d.buckets :: !b.isDirty)
    ensures forall u | u in Dropped(old(d.buckets)) :: u !in files'
    ensures forall i | 1 <= i < |old(d.buckets)| && old(d.buckets)[i].isDirty && old(d.buckets)[i].numItems == 0 ::
      old(d.buckets)[i].uuid !in files'
    ensures forall i | 1 <= i < |old(d.buckets)| && !old(d.buckets)[i].isDirty :: var b := old(d.buckets)[i];
      b in d.buckets && b.uuid in files' && b.uuid in files && files'[b.uuid] == files[b.uuid]
    ensures d.myUuid in files' && |files'[d.myUuid].data| == MainSize(d)
    ensures LinksMade(d.symlinks) && |d.buckets| > 0 && MainOf(d) <= files'[d.myUuid].data
    ensures ParseDir(files', d.myUuid, sizeOf) == Some(ImageOf(d)) <==> Storable(d)
    ensures forall u: Uuid | u != d.myUuid && !HasBucket(old(d.buckets), u) ::
              (u in files' <==> u in files) && (u in files ==> files'[u] == files[u])
  {
    hide Indexed, Stored, SumLen, HasBucket, LinksSound, LinksShort, LinksMade, SumLinks, MainBytes, ParseDir, NamesOk,
      Pinned, SelfDelimiting, InSync, SyncedTo, LinksBytes, OthersKept, Survivors, Dropped, BucketsSound;
    assert BucketsSound(d.buckets) by { StoredBucketsSound(d.entries, d.buckets); }
    var kept := DropEmpty(d, files);
    ghost var bs := d.buckets;
    DroppedKept(files, old(d.buckets));
    SurvivorsAmong(old(d.buckets));
    MainFits(d);
    var buffer := new byte[MainSize(d)];
    var records := Serialize(d, buffer);
    d.buckets := d.buckets[0 := d.buckets[0].(isDirty := false)];
    FirstClean(d, bs, kept);
    files' := StoreOthers(d, buffer, records, kept, macs);
    DroppedGone(old(d.buckets), d.buckets, kept, files', d.myUuid);
    OnlyOurs(d.myUuid, files, kept, files', old(d.buckets), bs, d.buckets, File(buffer[..], mainMac));
    MainKept(files', d.buckets, d.myUuid, File(buffer[..], mainMac));
    files' := files'[d.myUuid := File(buffer[..], mainMac)];
    SettledInSync(files', d.buckets);
    assert d.buckets == StoredBuckets(old(d.buckets), macs);
    CleanKept(files, files', old(d.buckets), macs);
    DroppedAre(old(d.buckets));
    if Storable(d) { ParseStored(d, files', sizeOf); }
    if ParseDir(files', d.myUuid, sizeOf) == Some(ImageOf(d)) { ParsedIsStorable(d, files', sizeOf); }
  }

  /** The buckets a store leaves: no empty one, the dirty ones under their new tags, none dirty. */
  function StoredBuckets(bs: seq<Bucket>, macs: nat -> Mac): seq<Bucket> {
    var left := Survivors(bs);
    seq(|left|, j requires 0 <= j < |left| =>
      if j == 0 then left[0].(isDirty := false) else Rewritten(left[j], macs(j)))
  }

  lemma {:induction false} SurvivorIs(bs: seq<Bucket>, b: Bucket) returns (i: nat)
    requires b in Survivors(bs)
    ensures i < |bs| && bs[i] == b && (i == 0 || !DirtyEmpty(b))
  {
    hide DirtyEmpty;
    var n := |bs| - 1;
    if n > 0 && b in Survivors(bs[..n]) {
      i := SurvivorIs(bs[..n], b);
    } else {
      i := n;
    }
  }

  lemma {:induction false} SurvivorStays(bs: seq<Bucket>, i: nat) returns (j: nat)
    requires 1 <= i < |bs| && !DirtyEmpty(bs[i])
    ensures 1 <= j < |Survivors(bs)| && Survivors(bs)[j] == bs[i]
    decreases |bs|
  {
    hide DirtyEmpty;
    var n := |bs| - 1;
    if i == n {
      j := |Survivors(bs)| - 1;
      assert |Survivors(bs[..n])| >= 1 by { FirstSurvives(bs[..n]); }
    } else {
      j := SurvivorStays(bs[..n], i);
    }
  }

  lemma {:induction false} FirstSurvives(bs: seq<Bucket>)
    requires bs != []
    ensures |Survivors(bs)| >= 1
  {
    if |bs| == 1 {
    } else {
      FirstSurvives(bs[..|bs| - 1]);
    }
  }

  /** A store leaves clean buckets and their files alone. */
  lemma CleanKept(files: map<Uuid, File>, files': map<Uuid, File>, bs: seq<Bucket>, macs: nat -> Mac)
    requires InSync(files, bs) && InSync(files', StoredBuckets(bs, macs))
    ensures forall i | 1 <= i < |bs| && !bs[i].isDirty ::
      && bs[i] in StoredBuckets(bs, macs) && bs[i].uuid in files' && bs[i].uuid in files
      && files'[bs[i].uuid] == files[bs[i].uuid]
  {
    hide RecsBytes;
    forall i | 1 <= i < |bs| && !bs[i].isDirty
      ensures && bs[i] in StoredBuckets(bs, macs) && bs[i].uuid in files' && bs[i].uuid in files
              && files'[bs[i].uuid] == files[bs[i].uuid]
    {
      var j := SurvivorStays(bs, i);
      assert StoredBuckets(bs, macs)[j] == Rewritten(Survivors(bs)[j], macs(j));
      assert Pinned(files, bs[i]) && Pinned(files', StoredBuckets(bs, macs)[j]);
    }
  }

  lemma SurvivorsAmong(bs: seq<Bucket>)
    ensures forall b | b in Survivors(bs) :: b in bs
  {
    forall b | b in Survivors(bs) ensures b in bs { var i := SurvivorIs(bs, b); }
  }

  lemma DroppedAre(bs: seq<Bucket>)
    ensures forall i | 1 <= i < |bs| && bs[i].isDirty && bs[i].numItems == 0 :: bs[i].uuid in Dropped(bs)
  {
  }

  lemma DroppedKept(files: map<Uuid, File>, bs: seq<Bucket>)
    ensures OthersKept(files, files - Dropped(bs), bs)
  {
  }

  /** The file of a dropped bucket is gone: no bucket that stayed has its name. */
  lemma DroppedGone(bs: seq<Bucket>, bs': seq<Bucket>, kept: map<Uuid, File>, files': map<Uuid, File>, me: Uuid)
    requires BucketsSound(bs) && !HasBucket(bs, me) && kept.Keys !! Dropped(bs) && OthersKept(kept, files', bs')
    requires forall u :: HasBucket(bs', u) == HasBucket(Survivors(bs), u)
    ensures forall u | u in Dropped(bs) :: u !in files' && u != me
  {
    hide BucketSound, DirtyEmpty;
    forall u | u in Dropped(bs) ensures u !in files' && u != me {
      var i :| 1 <= i < |bs| && DirtyEmpty(bs[i]) && bs[i].uuid == u;
      assert HasBucket(bs, u);
      if HasBucket(Survivors(bs), u) {
        var k :| 0 <= k < |Survivors(bs)| && Survivors(bs)[k].uuid == u;
        var j := SurvivorIs(bs, Survivors(bs)[k]);
        assert false;
      }
      assert u !in kept;
    }
  }

  /** Clearing the dirty flag of the first bucket changes nothing that is stored. */
  lemma FirstClean(d: Dirnode, bs: seq<Bucket>, files: map<Uuid, File>)
    requires |bs| > 0 && d.buckets == bs[0 := bs[0].(isDirty := false)] && InSync(files, bs)
    requires Stored(d.entries, bs) && LinksMade(d.symlinks)
    ensures Stored(d.entries, d.buckets) && SyncedTo(files, d.buckets, 0)
    ensures MainOf(d) == MainBytes(HeaderOf(d), d.symlinks, bs, d.attributes)
    ensures !d.buckets[0].onDisk
    ensures forall u :: HasBucket(d.buckets, u) == HasBucket(bs, u)
  {
    hide Stored, HasBucket, LinksMade, Pinned, RecordsBytes, RecordBytes, LinksBytes, HeaderBytes, RecsBytes;
    var b' := bs[0].(isDirty := false);
    RetagStored(d.entries, bs, 0, b');
    assert RecordsBytes(d.buckets) == RecordsBytes(bs) by { FirstRecord(bs, b'); }
    forall u ensures HasBucket(d.buckets, u) == HasBucket(bs, u) {
      SealTouches(bs, 0, b', u);
    }
  }

  lemma FirstRecord(bs: seq<Bucket>, b': Bucket)
    requires |bs| > 0 && b' == bs[0].(isDirty := b'.isDirty)
    ensures RecordsBytes(bs[0 := b']) == RecordsBytes(bs)
  {
    assert bs[0 := b'][1..] == bs[1..];
  }

  lemma MainKept(files: map<Uuid, File>, bs: seq<Bucket>, me: Uuid, f: File)
    requires SyncedTo(files, bs, |bs|) && !HasBucket(bs, me)
    ensures SyncedTo(files[me := f], bs, |bs|)
  {
    hide Pinned;
    forall i | 1 <= i < |bs| ensures Pinned(files[me := f], bs[i]) {
      PinKept(files, files[me := f], bs[i], me, f);
    }
  }

  lemma OnlyOurs(me: Uuid, files: map<Uuid, File>, kept: map<Uuid, File>, files': map<Uuid, File>,
                 bs: seq<Bucket>, bs1: seq<Bucket>, bs2: seq<Bucket>, f: File)
    requires OthersKept(files, kept, bs) && OthersKept(kept, files', bs2)
    requires forall b | b in bs1 :: b in bs
    requires forall u :: HasBucket(bs2, u) == HasBucket(bs1, u)
    ensures forall u: Uuid | u != me && !HasBucket(bs, u) ::
              (u in files'[me := f] <==> u in files) && (u in files ==> files'[me := f][u] == files[u])
  {
    hide HasBucket;
    forall u: Uuid | HasBucket(bs1, u) ensures HasBucket(bs, u) {
      AmongThese(bs1, bs, u);
    }
  }

  lemma AmongThese(bs1: seq<Bucket>, bs: seq<Bucket>, u: Uuid)
    requires HasBucket(bs1, u) && forall b | b in bs1 :: b in bs
    ensures HasBucket(bs, u)
  {
    var i :| 0 <= i < |bs1| && bs1[i].uuid == u;
    assert bs1[i] in bs;
  }
}
