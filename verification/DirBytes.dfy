/**
 The stored form of a directory: the packed records of entries, symlinks and buckets, the header
 of the main record, and how each is read back. A reader that would run past its buffer fails.
 */
module DirBytes {
  import opened Prelude
  import opened LittleEndian
  import opened DirValues

  lemma Pieces(a: Bytes, b: Bytes)
    ensures (a + b)[..|a|] == a && (a + b)[|a|..] == b
  {
  }

  /** Up to the first NUL. */
  function CString(bs: Bytes): Bytes {
    if bs == [] || bs[0] == 0 then [] else [bs[0]] + CString(bs[1..])
  }

  lemma {:induction false} CStringOf(s: Bytes, rest: Bytes)
    requires 0 !in s
    ensures CString(s + [0] + rest) == s
  {
    if s == [] {
    } else {
      CStringOf(s[1..], rest);
      assert (s + [0] + rest)[1..] == s[1..] + [0] + rest;
    }
  }

  // ---------------------------------------------------------------- directory entries

  function KindCode(k: Kind): nat {
    match k case Reg => 1 case Dir => 2 case Lnk => 3
  }

  function KindOf(code: nat): Option<Kind> {
    if code == 1 then Some(Reg) else if code == 2 then Some(Dir) else if code == 3 then Some(Lnk) else None
  }

  function RecHead(r: Rec): (bs: Bytes)
    ensures |bs| == 24
  {
    Le(RecLen(r), 2) + Le(KindCode(r.kind), 4) + r.uuid + Le(|r.name|, 2)
  }

  function RecBytes(r: Rec): (bs: Bytes)
    ensures |bs| == RecLen(r)
  {
    RecHead(r) + (r.name + [0])
  }

  function ParseRec(bs: Bytes): (p: Option<(Rec, Bytes)>)
    ensures p.Some? ==> |p.value.1| < |bs|
  {
    if |bs| < 24 then None else
      var len, kind := FromLe(bs[..2]), KindOf(FromLe(bs[2..6]));
      if len < 25 || len > |bs| || kind.None? then None
      else Some((Rec(CString(bs[24..len]), kind.value, bs[6..22]), bs[len..]))
  }

  lemma HeadFields(r: Rec)
    ensures RecHead(r)[..2] == Le(RecLen(r), 2) && RecHead(r)[2..6] == Le(KindCode(r.kind), 4)
    ensures RecHead(r)[6..22] == r.uuid
  {
    hide Le;
  }

  /** The bytes of a stored entry. */
  lemma RecLayout(r: Rec)
    requires NameOk(r.name)
    ensures var bs := RecBytes(r);
      && |bs| == |r.name| + 25 && bs[0] as nat + 0x100 * bs[1] as nat == |r.name| + 25
      && bs[2..6] == [if r.kind == Reg then 1 else if r.kind == Dir then 2 else 3, 0, 0, 0]
      && bs[6..22] == r.uuid && bs[22] as nat + 0x100 * bs[23] as nat == |r.name|
      && bs[24..24 + |r.name|] == r.name && bs[24 + |r.name|] == 0
  {
    var bs := RecBytes(r);
    Le16(RecLen(r));
    Le16(|r.name|);
    assert Le(KindCode(r.kind), 4) == [KindCode(r.kind) as byte, 0, 0, 0] by { LowByte(KindCode(r.kind)); }
    hide Le;
    HeadFields(r);
    assert bs[..2] == RecHead(r)[..2] && bs[2..6] == RecHead(r)[2..6] && bs[6..22] == RecHead(r)[6..22];
    assert RecHead(r)[22..24] == Le(|r.name|, 2);
    assert bs[0] == Le(RecLen(r), 2)[0] && bs[1] == Le(RecLen(r), 2)[1];
    assert bs[22] == Le(|r.name|, 2)[0] && bs[23] == Le(|r.name|, 2)[1];
  }

  lemma LowByte(n: nat)
    requires n < 0x100
    ensures Le(n, 4) == [n as byte, 0, 0, 0]
  {
    assert Le(n, 4) == [n as byte] + Le(0, 3) && Le(0, 3) == [0] + Le(0, 2) && Le(0, 2) == [0] + Le(0, 1);
    assert Le(0, 1) == [0] + Le(0, 0);
  }

  lemma ParseRecOf(r: Rec, rest: Bytes)
    requires NameOk(r.name)
    ensures ParseRec(RecBytes(r) + rest) == Some((r, rest))
  {
    hide Le, FromLe, CString, RecHead;
    var bs := RecBytes(r) + rest;
    HeadFields(r);
    assert bs[..2] == RecHead(r)[..2] && bs[2..6] == RecHead(r)[2..6] && bs[6..22] == RecHead(r)[6..22];
    assert bs[24..RecLen(r)] == r.name + [0] + [];
    assert bs[RecLen(r)..] == rest;
    Le16(RecLen(r));
    Le32(KindCode(r.kind));
    CStringOf(r.name, []);
  }

  function RecsBytes(rs: seq<Rec>): Bytes {
    if rs == [] then [] else RecBytes(rs[0]) + RecsBytes(rs[1..])
  }

  lemma {:induction false} RecsSnoc(rs: seq<Rec>, r: Rec)
    ensures RecsBytes(rs + [r]) == RecsBytes(rs) + RecBytes(r)
  {
    hide RecBytes;
    if rs != [] {
      RecsSnoc(rs[1..], r);
      assert (rs + [r])[1..] == rs[1..] + [r];
    } else {
      assert [r][1..] == [] && rs + [r] == [r];
    }
  }

  lemma {:induction false} RecsLength(rs: seq<Rec>)
    ensures |RecsBytes(rs)| == SumLen(rs)
  {
    hide RecBytes;
    if rs == [] {
    } else {
      RecsLength(rs[..|rs| - 1]);
      RecsSnoc(rs[..|rs| - 1], rs[|rs| - 1]);
      assert rs == rs[..|rs| - 1] + [rs[|rs| - 1]];
    }
  }

  /** Entries follow each other in their order. */
  lemma {:induction false} RecsAt(rs: seq<Rec>, i: nat)
    requires i < |rs|
    ensures var a := SumLen(rs[..i]); var b := a + |rs[i].name| + 25;
      b <= |RecsBytes(rs)| && RecsBytes(rs)[a..b] == RecBytes(rs[i])
  {
    hide RecBytes, RecsBytes;
    var n := |rs| - 1;
    assert rs == rs[..n] + [rs[n]];
    RecsSnoc(rs[..n], rs[n]);
    RecsLength(rs[..n]);
    if i == n {
    } else {
      RecsAt(rs[..n], i);
      assert rs[..n][..i] == rs[..i];
    }
  }

  /** Reads `n` entries, behind those already read. */
  function ParseRecs(bs: Bytes, n: nat, got: seq<Rec>): Option<(seq<Rec>, Bytes)> {
    if n == 0 then Some((got, bs)) else
      var p := ParseRec(bs);
      if p.None? then None else ParseRecs(p.value.1, n - 1, got + [p.value.0])
  }

  lemma {:induction false} ParseRecsOf(rs: seq<Rec>, rest: Bytes, got: seq<Rec>)
    requires forall r | r in rs :: NameOk(r.name)
    ensures ParseRecs(RecsBytes(rs) + rest, |rs|, got) == Some((got + rs, rest))
  {
    hide RecBytes, ParseRec;
    if rs == [] {
      assert RecsBytes(rs) + rest == rest && got + rs == got;
    } else {
      var rest' := RecsBytes(rs[1..]) + rest;
      assert RecsBytes(rs) + rest == RecBytes(rs[0]) + rest';
      ParseRecOf(rs[0], rest');
      ParseRecsOf(rs[1..], rest, got + [rs[0]]);
      assert got + [rs[0]] + rs[1..] == got + rs;
    }
  }

  // ---------------------------------------------------------------- symlink records

  function LinkFull(l: Link): (bs: Bytes)
    requires l.totalLen < 0x100
    ensures |bs| == |l.target| + 20
  {
    [l.totalLen as byte] + l.uuid + Le(|l.target|, 2) + (l.target + [0])
  }

  /** As many bytes of a record are stored as its length byte says. */
  function LinkBytes(l: Link): (bs: Bytes)
    requires l == MakeLink(l.uuid, l.target)
    ensures |bs| == l.totalLen
  {
    LinkFull(l)[..l.totalLen]
  }

  /** The bytes of a stored symlink record. */
  lemma LinkLayout(l: Link)
    requires l == MakeLink(l.uuid, l.target) && |l.target| <= 235
    ensures var bs := LinkBytes(l);
      && |bs| == |l.target| + 20 && bs[0] as nat == |l.target| + 20 && bs[1..17] == l.uuid
      && bs[17] as nat + 0x100 * bs[18] as nat == |l.target|
      && bs[19..19 + |l.target|] == l.target && bs[19 + |l.target|] == 0
  {
    hide Le;
    Le16(|l.target|);
    var bs := LinkBytes(l);
    assert bs == LinkFull(l);
    assert bs[17] == Le(|l.target|, 2)[0] && bs[18] == Le(|l.target|, 2)[1];
  }

  function ParseLink(bs: Bytes): (p: Option<(Link, Bytes)>) {
    if bs == [] then None else
      var len := bs[0] as nat;
      if len < 20 || len > |bs| then None
      else Some((Link(bs[1..17], CString(bs[19..len]), len), bs[len..]))
  }

  lemma {:induction false} CStringShort(bs: Bytes)
    ensures |CString(bs)| <= |bs|
  {
    if bs == [] {
    } else {
      CStringShort(bs[1..]);
    }
  }

  /** A symlink record is read back, whatever follows it, exactly when the target has at most 235 bytes. */
  lemma ParseLinkOf(l: Link, rest: Bytes)
    requires l == MakeLink(l.uuid, l.target) && 0 !in l.target
    ensures ParseLink(LinkBytes(l) + rest) == Some((l, rest)) <==> |l.target| <= 235
  {
    hide Le, FromLe, CString;
    var bs := LinkBytes(l) + rest;
    if |l.target| <= 235 {
      assert LinkBytes(l) == LinkFull(l);
      assert bs[0] == l.totalLen as byte && bs[1..17] == l.uuid;
      assert bs[19..l.totalLen] == l.target + [0] + [];
      assert bs[l.totalLen..] == rest;
      CStringOf(l.target, []);
    } else if ParseLink(bs).Some? {
      CStringShort(bs[19..bs[0] as nat]);
    }
  }

  predicate LinksMade(ls: seq<Link>) {
    forall l | l in ls :: l == MakeLink(l.uuid, l.target)
  }

  predicate LinksShort(ls: seq<Link>) {
    forall l | l in ls :: l == MakeLink(l.uuid, l.target) && |l.target| <= 235 && 0 !in l.target
  }

  function LinksBytes(ls: seq<Link>): (bs: Bytes)
    requires LinksMade(ls)
  {
    if ls == [] then [] else LinkBytes(ls[0]) + LinksBytes(ls[1..])
  }

  lemma {:induction false} LinksSnoc(ls: seq<Link>, l: Link)
    requires LinksMade(ls + [l])
    ensures LinksBytes(ls + [l]) == LinksBytes(ls) + LinkBytes(l)
  {
    hide LinkBytes, MakeLink;
    if ls != [] {
      LinksSnoc(ls[1..], l);
      assert (ls + [l])[1..] == ls[1..] + [l];
    } else {
      assert [l][1..] == [] && ls + [l] == [l];
    }
  }

  lemma {:induction false} LinksLength(ls: seq<Link>)
    requires LinksMade(ls)
    ensures |LinksBytes(ls)| == SumLinks(ls)
  {
    hide MakeLink, LinksBytes;
    if ls == [] {
      NoLinks();
    } else {
      var n := |ls| - 1;
      assert ls == ls[..n] + [ls[n]];
      LinksLength(ls[..n]);
      LinksSnoc(ls[..n], ls[n]);
    }
  }

  /** Symlink records follow each other in their order. */
  lemma {:induction false} LinksAt(ls: seq<Link>, i: nat)
    requires LinksMade(ls) && i < |ls|
    ensures var a := SumLinks(ls[..i]); var b := a + ls[i].totalLen;
      b <= |LinksBytes(ls)| && LinksBytes(ls)[a..b] == LinkBytes(ls[i])
  {
    hide MakeLink, LinkBytes, LinksBytes;
    var n := |ls| - 1;
    assert ls == ls[..n] + [ls[n]];
    LinksSnoc(ls[..n], ls[n]);
    LinksLength(ls[..n]);
    if i == n {
    } else {
      LinksAt(ls[..n], i);
      assert ls[..n][..i] == ls[..i];
    }
  }

  lemma NoLinks()
    ensures LinksBytes([]) == []
  {
  }

  function ParseLinks(bs: Bytes, n: nat, got: seq<Link>): Option<(seq<Link>, Bytes)> {
    if n == 0 then Some((got, bs)) else
      var p := ParseLink(bs);
      if p.None? then None else ParseLinks(p.value.1, n - 1, got + [p.value.0])
  }

  lemma {:induction false} ParseLinksOf(ls: seq<Link>, rest: Bytes, got: seq<Link>)
    requires LinksShort(ls)
    ensures ParseLinks(LinksBytes(ls) + rest, |ls|, got) == Some((got + ls, rest))
  {
    hide LinkBytes, ParseLink, MakeLink;
    if ls == [] {
      assert LinksBytes(ls) + rest == rest && got + ls == got;
    } else {
      var rest' := LinksBytes(ls[1..]) + rest;
      assert LinksBytes(ls) + rest == LinkBytes(ls[0]) + rest';
      ParseLinkOf(ls[0], rest');
      ParseLinksOf(ls[1..], rest, got + [ls[0]]);
      assert got + [ls[0]] + ls[1..] == got + ls;
    }
  }

  /** What a length byte leaves room for. */
  predicate LinkBounded(l: Link) {
    20 <= l.totalLen < 0x100 && |l.target| <= l.totalLen - 19
  }

  lemma ParsedLinkBounded(bs: Bytes)
    ensures ParseLink(bs).Some? ==> LinkBounded(ParseLink(bs).value.0)
  {
    if ParseLink(bs).Some? { CStringShort(bs[19..bs[0] as nat]); }
  }

  lemma {:induction false} ParsedLinksBounded(bs: Bytes, n: nat, got: seq<Link>)
    requires forall l | l in got :: LinkBounded(l)
    ensures ParseLinks(bs, n, got).Some? ==> forall l | l in ParseLinks(bs, n, got).value.0 :: LinkBounded(l)
    decreases n
  {
    hide LinkBounded, ParseLink;
    if n > 0 && ParseLink(bs).Some? {
      ParsedLinkBounded(bs);
      ParsedLinksBounded(ParseLink(bs).value.1, n - 1, got + [ParseLink(bs).value.0]);
    }
  }

  /** Whole records that fit a length byte have short targets. */
  lemma BoundedIsShort(l: Link)
    requires l == MakeLink(l.uuid, l.target) && LinkBounded(l)
    ensures |l.target| <= 235
  {
  }

  // ---------------------------------------------------------------- bucket records

  function RecordHead(b: Bucket): (bs: Bytes)
    ensures |bs| == 24
  {
    Le(b.numItems, 4) + Le(b.sizeBytes, 4) + b.uuid
  }

  function RecordBytes(b: Bucket): (bs: Bytes)
    ensures |bs| == 40
  {
    RecordHead(b) + b.mac
  }

  /** `bucket_from_record`: a bucket whose entries are still to be loaded. */
  function ParseRecord(bs: Bytes): Bucket
    requires |bs| >= 40
  {
    Bucket(bs[8..24], [], FromLe(bs[..4]), FromLe(bs[4..8]), BUCKET_CAPACITY, false, false, bs[24..40])
  }

  function Bare(b: Bucket): Bucket {
    b.(entries := [], capacity := BUCKET_CAPACITY, isDirty := false, onDisk := false)
  }

  predicate Small(b: Bucket) {
    b.numItems < 0x1_0000_0000 && b.sizeBytes < 0x1_0000_0000
  }

  lemma RecordFields(b: Bucket)
    ensures RecordHead(b)[..4] == Le(b.numItems, 4) && RecordHead(b)[4..8] == Le(b.sizeBytes, 4)
    ensures RecordHead(b)[8..24] == b.uuid
  {
    hide Le;
  }

  /** The bytes of a bucket record. */
  lemma RecordLayout(b: Bucket)
    requires Small(b)
    ensures var bs := RecordBytes(b);
      && |bs| == 40 && bs[8..24] == b.uuid && bs[24..40] == b.mac
      && b.numItems == bs[0] as nat + 0x100 * bs[1] as nat + 0x1_0000 * bs[2] as nat + 0x100_0000 * bs[3] as nat
      && b.sizeBytes == bs[4] as nat + 0x100 * bs[5] as nat + 0x1_0000 * bs[6] as nat + 0x100_0000 * bs[7] as nat
  {
    hide Le;
    Le32(b.numItems);
    Le32(b.sizeBytes);
    var bs := RecordBytes(b);
    assert forall k | 0 <= k < 4 :: bs[k] == Le(b.numItems, 4)[k] && bs[4 + k] == Le(b.sizeBytes, 4)[k];
  }

  lemma ParseRecordOf(b: Bucket, rest: Bytes)
    requires Small(b)
    ensures ParseRecord(RecordBytes(b) + rest) == Bare(b)
  {
    hide Le, FromLe, RecordHead;
    var bs := RecordBytes(b) + rest;
    RecordFields(b);
    assert bs[..4] == RecordHead(b)[..4] && bs[4..8] == RecordHead(b)[4..8] && bs[8..24] == RecordHead(b)[8..24];
    assert bs[24..40] == b.mac;
    Le32(b.numItems);
    Le32(b.sizeBytes);
  }

  function RecordsBytes(bs: seq<Bucket>): (r: Bytes)
    ensures |r| == 40 * |bs|
  {
    if bs == [] then [] else RecordBytes(bs[0]) + RecordsBytes(bs[1..])
  }

  lemma {:induction false} RecordsConcat(a: seq<Bucket>, b: seq<Bucket>)
    ensures RecordsBytes(a + b) == RecordsBytes(a) + RecordsBytes(b)
  {
    hide RecordBytes;
    if a == [] {
      assert a + b == b;
    } else {
      assert (a + b)[0] == a[0] && (a + b)[1..] == a[1..] + b;
      RecordsConcat(a[1..], b);
      Associates(RecordBytes(a[0]), RecordsBytes(a[1..]), RecordsBytes(b));
    }
  }

  lemma Associates(a: Bytes, b: Bytes, c: Bytes)
    ensures a + b + c == a + (b + c)
  {
  }

  lemma RecordsOne(b: Bucket)
    ensures RecordsBytes([b]) == RecordBytes(b)
  {
    assert [b][1..] == [];
  }

  /** Bucket records follow each other in their order. */
  lemma RecordsAt(bs: seq<Bucket>, i: nat)
    requires i < |bs|
    ensures RecordsBytes(bs)[40 * i..40 * i + 40] == RecordBytes(bs[i])
  {
    hide RecordBytes;
    assert bs == bs[..i] + bs[i..];
    RecordsConcat(bs[..i], bs[i..]);
  }

  function ParseRecords(bs: Bytes, n: nat, got: seq<Bucket>): Option<(seq<Bucket>, Bytes)> {
    if n == 0 then Some((got, bs))
    else if |bs| < 40 then None
    else ParseRecords(bs[40..], n - 1, got + [ParseRecord(bs)])
  }

  function Bares(bs: seq<Bucket>): seq<Bucket> {
    seq(|bs|, i requires 0 <= i < |bs| => Bare(bs[i]))
  }

  lemma {:induction false} ParseRecordsOf(bs: seq<Bucket>, rest: Bytes, got: seq<Bucket>)
    requires forall b | b in bs :: Small(b)
    ensures ParseRecords(RecordsBytes(bs) + rest, |bs|, got) == Some((got + Bares(bs), rest))
  {
    hide RecordBytes, ParseRecord, Small, Bare;
    if bs == [] {
      assert RecordsBytes(bs) + rest == rest && got + Bares(bs) == got;
    } else {
      var rest' := RecordsBytes(bs[1..]) + rest;
      assert RecordsBytes(bs) + rest == RecordBytes(bs[0]) + rest';
      ParseRecordOf(bs[0], rest');
      Pieces(RecordBytes(bs[0]), rest');
      ParseRecordsOf(bs[1..], rest, got + [Bare(bs[0])]);
      assert got + [Bare(bs[0])] + Bares(bs[1..]) == got + Bares(bs);
    }
  }

  /** Writing a tag into its record changes that record alone. */
  lemma PatchMac(bs: seq<Bucket>, i: nat, b': Bucket)
    requires i < |bs|
    requires b'.numItems == bs[i].numItems && b'.sizeBytes == bs[i].sizeBytes && b'.uuid == bs[i].uuid
    ensures RecordsBytes(bs[i := b']) == RecordsBytes(bs)[..40 * i + 24] + b'.mac + RecordsBytes(bs)[40 * i + 40..]
  {
    hide RecordsBytes, RecordHead;
    var b := bs[i];
    assert bs == bs[..i] + ([b] + bs[i + 1..]) && bs[i := b'] == bs[..i] + ([b'] + bs[i + 1..]);
    RecordsConcat(bs[..i], [b] + bs[i + 1..]);
    RecordsConcat([b], bs[i + 1..]);
    RecordsConcat(bs[..i], [b'] + bs[i + 1..]);
    RecordsConcat([b'], bs[i + 1..]);
    RecordsOne(b);
    RecordsOne(b');
    SameHead(b, b');
    PatchBytes(RecordsBytes(bs[..i]), RecordHead(b), b.mac, b'.mac, RecordsBytes(bs[i + 1..]));
  }

  lemma SameHead(b: Bucket, b': Bucket)
    requires b'.numItems == b.numItems && b'.sizeBytes == b.sizeBytes && b'.uuid == b.uuid
    ensures RecordHead(b') == RecordHead(b)
  {
  }

  lemma PatchBytes(before: Bytes, head: Bytes, was: Bytes, now: Bytes, after: Bytes)
    requires |was| == |now|
    ensures var all := before + (head + was + after);
      before + (head + now + after)
      == all[..|before| + |head|] + now + all[|before| + |head| + |was|..]
  {
  }
}
