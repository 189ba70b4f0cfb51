/**
 Runs of directory operations on two directories, against what their users see of them: names and symlinks.
 */
module DirRun {
  import opened Prelude
  import opened DirValues
  import opened Dirnode

  datatype Side = Left | Right

  datatype Op =
    | AddOp(at: Side, name: Bytes, kind: Kind, uuid: Uuid, bucket: Uuid)
    | LinkOp(at: Side, name: Bytes, target: Bytes, uuid: Uuid, bucket: Uuid)
    | RemoveOp(at: Side, name: Bytes, kind: Kind, uuid: Uuid)
    | RenameOp(at: Side, oldName: Bytes, to: Side, newName: Bytes, bucket: Uuid)

  /** A directory as its users see it: what the names are bound to, and the symlink records. */
  datatype Listing = Listing(names: map<Bytes, Rec>, links: seq<Link>)

  datatype World = World(left: Listing, right: Listing) {
    function Get(s: Side): Listing {
      if s.Left? then left else right
    }
    function Put(s: Side, d: Listing): World {
      if s.Left? then World(d, right) else World(left, d)
    }
  }

  function Bind(d: Listing, r: Rec): Listing {
    d.(names := d.names[r.name := r])
  }

  /** Removing a name also removes the symlink record that the caller is told of. */
  function Unbind(d: Listing, name: Bytes, kind: Kind, uuid: Uuid): Listing {
    var r := if name in d.names then d.names[name] else Rec(name, kind, uuid);
    Listing(d.names - {name}, if r.kind == Lnk then Unlink(d.links, r.uuid) else d.links)
  }

  /** What an operation means for the two directories. */
  function Apply(w: World, op: Op): World {
    var d := w.Get(op.at);
    match op
    case AddOp(at, name, kind, uuid, _) =>
      if name in d.names then w else w.Put(at, Bind(d, Rec(name, kind, uuid)))
    case LinkOp(at, name, target, uuid, _) =>
      if name in d.names then w else
        w.Put(at, Bind(d, Rec(name, Lnk, uuid)).(links := d.links + [MakeLink(uuid, Shorten(target))]))
    case RemoveOp(at, name, kind, uuid) => w.Put(at, Unbind(d, name, kind, uuid))
    case RenameOp(at, oldName, to, newName, _) =>
      if oldName !in d.names then w else
        var r := d.names[oldName].(name := newName);
        var gone := d.(names := d.names - {oldName});
        if at == to then w.Put(at, Bind(gone, r)) else
          var other := Bind(w.Get(to), r);
          w.Put(at, gone.(links := Unlink(d.links, r.uuid)))
           .Put(to, other.(links := Carried(d.links, other.links, r.uuid)))
  }

  function Lookup(d: Listing, name: Bytes): Option<Rec> {
    if name in d.names then Some(d.names[name]) else None
  }

  /** What a name is bound to after an operation: all but the one or two names it is about stay as they were. */
  lemma ApplyNames(w: World, op: Op, s: Side, n: Bytes)
    ensures var was, now := Lookup(w.Get(s), n), Lookup(Apply(w, op).Get(s), n);
      && (op.AddOp? ==>
            now == if s == op.at && n == op.name && was.None? then Some(Rec(n, op.kind, op.uuid)) else was)
      && (op.LinkOp? ==>
            now == if s == op.at && n == op.name && was.None? then Some(Rec(n, Lnk, op.uuid)) else was)
      && (op.RemoveOp? ==> now == if s == op.at && n == op.name then None else was)
  {
    hide Unlink;
  }

  /** A rename binds the new name, whatever it was bound to, to the same entry, and frees the old name. */
  lemma ApplyRename(w: World, op: Op, s: Side, n: Bytes)
    requires op.RenameOp? && !(op.at == op.to && op.oldName == op.newName)
    ensures var was, now := Lookup(w.Get(s), n), Lookup(Apply(w, op).Get(s), n);
      var moved := Lookup(w.Get(op.at), op.oldName);
      if moved.None? then now == was
      else if s == op.to && n == op.newName then now == Some(Rec(n, moved.value.kind, moved.value.uuid))
      else if s == op.at && n == op.oldName then now == None
      else now == was
  {
    hide Unlink, Carried;
  }

  /** What a symlink's identifier leads to after an operation. */
  lemma ApplyTargets(w: World, op: Op, s: Side, u: Uuid)
    ensures var was, now := TargetOf(w.Get(s).links, u), TargetOf(Apply(w, op).Get(s).links, u);
      && (op.AddOp? ==> now == was)
      && (op.LinkOp? ==>
            now == if s == op.at && u == op.uuid && was.None? && Lookup(w.Get(s), op.name).None?
                   then Some(Shorten(op.target)) else was)
      && (op.RemoveOp? && s != op.at ==> now == was)
      && (op.RemoveOp? && Lookup(w.Get(op.at), op.name).Some? ==>
            var gone := Lookup(w.Get(op.at), op.name).value;
            && (gone.uuid != u || gone.kind != Lnk ==> now == was)
            && (gone.kind == Lnk ==> Apply(w, op).Get(op.at).links == Unlink(w.Get(op.at).links, gone.uuid)))
      && (op.RenameOp? && op.at == op.to ==> now == was)
      && (op.RenameOp? && Lookup(w.Get(op.at), op.oldName).Some? && op.at != op.to ==>
            if u != Lookup(w.Get(op.at), op.oldName).value.uuid then now == was
            else s == op.to && was.None? ==> now == TargetOf(w.Get(op.at).links, u))
  {
    hide Unlink, TargetOf, Shorten;
    if op.LinkOp? {
      TargetOfAdded(w.Get(op.at).links, MakeLink(op.uuid, Shorten(op.target)), u);
    } else if op.RemoveOp? && op.name in w.Get(op.at).names {
      var gone := w.Get(op.at).names[op.name];
      if u != gone.uuid { UnlinkKeepsOthers(w.Get(op.at).links, gone.uuid, u); }
    } else if op.RenameOp? && op.oldName in w.Get(op.at).names {
      CarriedKeepsTargets(w.Get(op.at).links, w.Get(op.to).links, w.Get(op.at).names[op.oldName].uuid, u);
    }
  }

  function ApplyAll(w: World, ops: seq<Op>): World {
    if ops == [] then w else Apply(ApplyAll(w, ops[..|ops| - 1]), ops[|ops| - 1])
  }

  function Pick(l: Dirnode, r: Dirnode, s: Side): Dirnode {
    if s.Left? then l else r
  }

  function View(d: Dirnode): Listing
    reads d
  {
    Listing(d.byName, d.symlinks)
  }

  function Views(l: Dirnode, r: Dirnode): World
    reads l, r
  {
    World(View(l), View(r))
  }

  // ---------------------------------------------------------------- what a run may do

  /** Names are C strings of at most 255 bytes, and no entry is renamed onto itself. */
  predicate Fits(w: World, op: Op) {
    match op
    case AddOp(_, name, _, _, _) => NameOk(name)
    case LinkOp(_, name, target, _, _) => NameOk(name) && 0 !in target
    case RemoveOp(_, name, _, _) => NameOk(name)
    case RenameOp(at, oldName, to, newName, _) =>
      && NameOk(oldName) && NameOk(newName)
      && !(at == to && oldName == newName && oldName in w.Get(at).names)
  }

  ghost predicate LegalRun(w: World, ops: seq<Op>) {
    forall k | 0 <= k < |ops| :: Fits(ApplyAll(w, ops[..k]), ops[k])
  }

  /** The name drawn for a new bucket, should the operation need one, and the side it would be on. */
  function Drawn(op: Op): set<Uuid> {
    if op.RemoveOp? then {} else {op.bucket}
  }

  function DrawnAt(op: Op, s: Side): set<Uuid> {
    if s == (if op.RenameOp? then op.to else op.at) then Drawn(op) else {}
  }

  function AllDrawn(ops: seq<Op>): set<Uuid> {
    if ops == [] then {} else AllDrawn(ops[..|ops| - 1]) + Drawn(ops[|ops| - 1])
  }

  /** Names that are drawn are new: not in use before, and never drawn twice. */
  ghost predicate FreshNames(used: set<Uuid>, ops: seq<Op>) {
    forall k | 0 <= k < |ops| :: Drawn(ops[k]) !! used + AllDrawn(ops[..k])
  }

  /** The identifier an operation brings into a directory is not bound there yet. */
  predicate NewId(w: World, op: Op) {
    match op
    case AddOp(at, name, _, uuid, _) => name in w.Get(at).names || Unbound(w.Get(at), uuid)
    case LinkOp(at, name, _, uuid, _) => name in w.Get(at).names || Unbound(w.Get(at), uuid)
    case RemoveOp(_, _, _, _) => true
    case RenameOp(at, oldName, to, _, _) =>
      at == to || oldName !in w.Get(at).names || Unbound(w.Get(to), w.Get(at).names[oldName].uuid)
  }

  predicate Unbound(d: Listing, u: Uuid) {
    forall n | n in d.names :: d.names[n].uuid != u
  }

  ghost predicate NewIds(w: World, ops: seq<Op>) {
    forall k | 0 <= k < |ops| :: NewId(ApplyAll(w, ops[..k]), ops[k])
  }

  /** The length of every symlink record fits its byte, and the buffer length is that of the records. */
  ghost predicate Tidy(d: Dirnode)
    reads d
  {
    ShortLinks(d.symlinks) && d.Slack() == 0
  }

  predicate Modest(op: Op) {
    op.LinkOp? ==> |op.target| <= 235
  }

  predicate AllModest(ops: seq<Op>) {
    forall op | op in ops :: Modest(op)
  }

  /** The names of the files of a directory. */
  function FilesOf(d: Dirnode): set<Uuid>
    reads d
  {
    FileNames(d.myUuid, d.buckets)
  }

  lemma FreshIn(d: Dirnode, u: Uuid)
    requires u !in FilesOf(d)
    ensures d.Fresh(u)
  {
  }

  // ---------------------------------------------------------------- one operation

  /** What an operation may change of a directory beside its names. */
  datatype Shape = Shape(me: Uuid, attributes: Bytes, buckets: seq<Bucket>, links: seq<Link>)

  function ShapeOf(d: Dirnode): Shape
    reads d
  {
    Shape(d.myUuid, d.attributes, d.buckets, d.symlinks)
  }

  /** At most `n` buckets and `n` symlink records more, with file names that were drawn. */
  ghost predicate Within(a: Shape, b: Shape, n: nat, drawn: set<Uuid>) {
    && b.me == a.me && b.attributes == a.attributes
    && FileNames(b.me, b.buckets) <= FileNames(a.me, a.buckets) + drawn
    && |b.buckets| <= |a.buckets| + n && |b.links| <= |a.links| + n
  }

  /** The same, and clean buckets are left alone. */
  ghost predicate Grows(a: Shape, b: Shape, n: nat, drawn: set<Uuid>) {
    Within(a, b, n, drawn) && Touched(a.buckets, b.buckets)
  }

  lemma GrowsBy(a: Shape, b: Shape, u: Uuid)
    requires b.me == a.me && b.attributes == a.attributes && |b.links| <= |a.links| + 1
    requires Touched(a.buckets, b.buckets) && Grown(a.buckets, b.buckets, u)
    ensures Grows(a, b, 1, {u}) && (|b.buckets| == |a.buckets| ==> Grows(a, b, 1, {}))
  {
    hide FileNames, Touched;
    NamesGrow(a.me, a.buckets, b.buckets, u);
  }

  lemma GrowsNothing(a: Shape, n: nat, drawn: set<Uuid>)
    ensures Grows(a, a, n, drawn)
  {
    Untouched(a.buckets);
  }

  lemma GrowsAgain(a: Shape, b: Shape, c: Shape, n: nat, us: set<Uuid>, vs: set<Uuid>)
    requires Grows(a, b, n, us) && Grows(b, c, 1, vs)
    ensures Grows(a, c, n + 1, us + vs)
  {
    hide FileNames, Touched;
    TouchedAgain(a.buckets, b.buckets, c.buckets);
  }

  method PerformAdd(d: Dirnode, name: Bytes, kind: Kind, uuid: Uuid, bucket: Uuid)
    requires d.Valid() && NameOk(name) && bucket !in FilesOf(d)
    modifies d
    ensures d.Valid()
    ensures View(d) == if name in old(d.byName) then old(View(d)) else Bind(old(View(d)), Rec(name, kind, uuid))
    ensures old(Tidy(d)) ==> Tidy(d)
    ensures Grows(old(ShapeOf(d)), ShapeOf(d), 1, {bucket})
    ensures old(d.UuidsExact() && (name in d.byName || Unbound(View(d), uuid))) ==> d.UuidsExact()
  {
    hide Stored, Indexed, UuidSound, UuidIndexed, SumLen, SumLinks, HasBucket, Touched, NamesOk, LinksSound, Placed,
      Grown, FileNames, Grows;
    FreshIn(d, bucket);
    if forall n | n in d.byName :: d.byName[n].uuid != uuid { UuidFree(d.entries, d.byName, d.byUuid, uuid); }
    PlacedGrown(d.buckets, Rec(name, kind, uuid), bucket);
    GrowsNothing(ShapeOf(d), 1, {bucket});
    var ok := d.Add(name, kind, uuid, bucket);
    if ok { GrowsBy(old(ShapeOf(d)), ShapeOf(d), bucket); }
  }

  method PerformLink(d: Dirnode, name: Bytes, target: Bytes, uuid: Uuid, bucket: Uuid)
    requires d.Valid() && NameOk(name) && 0 !in target && bucket !in FilesOf(d)
    modifies d
    ensures d.Valid()
    ensures View(d) == if name in old(d.byName) then old(View(d))
      else Bind(old(View(d)), Rec(name, Lnk, uuid)).(links := old(d.symlinks) + [MakeLink(uuid, Shorten(target))])
    ensures old(Tidy(d)) && |target| <= 235 ==> Tidy(d)
    ensures Grows(old(ShapeOf(d)), ShapeOf(d), 1, {bucket})
    ensures old(d.UuidsExact() && (name in d.byName || Unbound(View(d), uuid))) ==> d.UuidsExact()
  {
    hide Stored, Indexed, UuidSound, UuidIndexed, SumLen, SumLinks, HasBucket, Touched, NamesOk, LinksSound, Placed,
      Grown, FileNames, Grows, TargetOf;
    FreshIn(d, bucket);
    if forall n | n in d.byName :: d.byName[n].uuid != uuid { UuidFree(d.entries, d.byName, d.byUuid, uuid); }
    PlacedGrown(d.buckets, Rec(name, Lnk, uuid), bucket);
    GrowsNothing(ShapeOf(d), 1, {bucket});
    var ok := d.AddLink(name, target, uuid, bucket);
    if ok { GrowsBy(old(ShapeOf(d)), ShapeOf(d), bucket); }
  }

  method PerformRemove(d: Dirnode, name: Bytes, kind: Kind, uuid: Uuid)
    requires d.Valid() && NameOk(name)
    modifies d
    ensures d.Valid()
    ensures View(d) == Unbind(old(View(d)), name, kind, uuid)
    ensures old(Tidy(d)) ==> Tidy(d)
    ensures Grows(old(ShapeOf(d)), ShapeOf(d), 1, {})
    ensures old(d.UuidsExact()) ==> d.UuidsExact()
  {
    hide Stored, Indexed, UuidSound, UuidIndexed, SumLen, SumLinks, HasBucket, Touched, NamesOk, LinksSound, Taken,
      Grown, FileNames, Grows, TargetOf, Unlink, InBuckets;
    var ok, k, u, t := d.Remove(name, kind, uuid);
    assert Grown(old(d.buckets), d.buckets, d.myUuid) by { NotGrown(old(d.buckets), d.buckets, d.myUuid); }
    UnlinkLength(old(d.symlinks), u);
    if old(Tidy(d)) { UnlinkShort(old(d.symlinks), u); }
    GrowsBy(old(ShapeOf(d)), ShapeOf(d), d.myUuid);
  }

  lemma NotGrown(before: seq<Bucket>, after: seq<Bucket>, u: Uuid)
    requires |before| == |after|
    ensures Grown(before, after, u)
  {
  }

  /** What a rename means for the two views. */
  function RenamedFrom(s: Listing, same: bool, oldName: Bytes, newName: Bytes): Listing {
    if oldName !in s.names then s
    else if same then Bind(s.(names := s.names - {oldName}), s.names[oldName].(name := newName))
    else Listing(s.names - {oldName}, Unlink(s.links, s.names[oldName].uuid))
  }

  function RenamedTo(s: Listing, d: Listing, oldName: Bytes, newName: Bytes): Listing {
    if oldName !in s.names then d
    else
      var r := s.names[oldName].(name := newName);
      Listing(d.names[newName := r], Carried(s.links, d.links, r.uuid))
  }

  method PerformRename(src: Dirnode, oldName: Bytes, dst: Dirnode, newName: Bytes, bucket: Uuid)
    requires src.Valid() && dst.Valid() && NameOk(oldName) && NameOk(newName) && bucket !in FilesOf(dst)
    requires src == dst && oldName in src.byName ==> oldName != newName
    modifies src, dst
    ensures src.Valid() && dst.Valid()
    ensures View(src) == RenamedFrom(old(View(src)), src == dst, oldName, newName)
    ensures src != dst ==> View(dst) == RenamedTo(old(View(src)), old(View(dst)), oldName, newName)
    ensures old(Tidy(src) && Tidy(dst)) ==> Tidy(src) && Tidy(dst)
    ensures Grows(old(ShapeOf(dst)), ShapeOf(dst), 1, {bucket})
    ensures src != dst ==> Grows(old(ShapeOf(src)), ShapeOf(src), 1, {})
    ensures old(src.UuidsExact() && dst.UuidsExact())
         && (src == dst || oldName !in old(src.byName) || Unbound(old(View(dst)), old(src.byName)[oldName].uuid))
        ==> src.UuidsExact() && dst.UuidsExact()
  {
    hide Stored, Indexed, UuidSound, UuidIndexed, SumLen, SumLinks, HasBucket, Touched, NamesOk, LinksSound, Taken,
      Grown, FileNames, Grows, TargetOf, Unlink, Carried, InBuckets, Placed, ShortLinks;
    FreshIn(dst, bucket);
    if oldName in src.byName {
      var u := src.byName[oldName].uuid;
      if forall n | n in dst.byName :: dst.byName[n].uuid != u { UuidFree(dst.entries, dst.byName, dst.byUuid, u); }
    }
    if Tidy(src) && Tidy(dst) && oldName in src.byName {
      CarriedShort(src.symlinks, dst.symlinks, src.byName[oldName].uuid);
    }
    var moved, gone := Rename(src, oldName, dst, newName, bucket);
    if moved.Some? {
      UnlinkLength(old(src.symlinks), moved.value.uuid);
      CarriedLength(old(src.symlinks), old(dst.symlinks), moved.value.uuid);
    }
    GrowsBy(old(ShapeOf(dst)), ShapeOf(dst), bucket);
    if src != dst {
      NotGrown(old(src.buckets), src.buckets, bucket);
      GrowsBy(old(ShapeOf(src)), ShapeOf(src), bucket);
    }
  }

  lemma CarriedShort(from: seq<Link>, to: seq<Link>, u: Uuid)
    requires ShortLinks(from) && ShortLinks(to)
    ensures ShortLinks(Unlink(from, u)) && ShortLinks(Carried(from, to, u))
    ensures TargetOf(from, u).Some? ==> |TargetOf(from, u).value| <= 235
  {
    UnlinkShort(from, u);
  }

  lemma CarriedLength(from: seq<Link>, to: seq<Link>, u: Uuid)
    ensures |Carried(from, to, u)| <= |to| + 1
  {
  }

  /** Every operation means what `Apply` says and keeps both directories consistent. */
  method Perform(l: Dirnode, r: Dirnode, op: Op)
    requires l.Valid() && r.Valid() && l != r && Fits(Views(l, r), op) && Drawn(op) !! FilesOf(l) + FilesOf(r)
    modifies l, r
    ensures l.Valid() && r.Valid() && Views(l, r) == Apply(old(Views(l, r)), op)
    ensures Grows(old(ShapeOf(l)), ShapeOf(l), 1, DrawnAt(op, Left))
    ensures Grows(old(ShapeOf(r)), ShapeOf(r), 1, DrawnAt(op, Right))
    ensures old(l.UuidsExact() && r.UuidsExact() && NewId(Views(l, r), op)) ==> l.UuidsExact() && r.UuidsExact()
    ensures old(Tidy(l) && Tidy(r)) && Modest(op) ==> Tidy(l) && Tidy(r)
  {
    hide Stored, Indexed, UuidSound, UuidIndexed, SumLen, SumLinks, HasBucket, NamesOk, LinksSound, FileNames, Grows,
      TargetOf, Unlink, Carried, Unbound, Tidy;
    GrowsNothing(ShapeOf(l), 1, {});
    GrowsNothing(ShapeOf(r), 1, {});
    var d := Pick(l, r, op.at);
    match op
    case AddOp(_, name, kind, uuid, bucket) =>
      PerformAdd(d, name, kind, uuid, bucket);
    case LinkOp(_, name, target, uuid, bucket) =>
      PerformLink(d, name, target, uuid, bucket);
    case RemoveOp(_, name, kind, uuid) =>
      PerformRemove(d, name, kind, uuid);
    case RenameOp(_, oldName, to, newName, bucket) =>
      PerformRename(d, oldName, Pick(l, r, to), newName, bucket);
  }

  /** A drawn name goes to one directory only, so the files stay apart. */
  lemma FilesApart(a: Shape, a': Shape, b: Shape, b': Shape, op: Op)
    requires Grows(a, a', 1, DrawnAt(op, Left)) && Grows(b, b', 1, DrawnAt(op, Right))
    requires FileNames(a.me, a.buckets) !! FileNames(b.me, b.buckets)
    requires Drawn(op) !! FileNames(a.me, a.buckets) + FileNames(b.me, b.buckets)
    ensures FileNames(a'.me, a'.buckets) !! FileNames(b'.me, b'.buckets)
    ensures Grows(a, a', 1, Drawn(op)) && Grows(b, b', 1, Drawn(op))
  {
    hide FileNames, Touched;
  }

  // ---------------------------------------------------------------- whole runs

  lemma {:induction false} ApplyAllConcat(w: World, a: seq<Op>, b: seq<Op>)
    ensures ApplyAll(w, a + b) == ApplyAll(ApplyAll(w, a), b)
    decreases |b|
  {
    hide Apply;
    if b == [] {
      assert a + b == a;
    } else {
      var n := |b| - 1;
      assert (a + b)[..|a + b| - 1] == a + b[..n] && (a + b)[|a + b| - 1] == b[n];
      ApplyAllConcat(w, a, b[..n]);
    }
  }

  lemma {:induction false} AllDrawnConcat(a: seq<Op>, b: seq<Op>)
    ensures AllDrawn(a + b) == AllDrawn(a) + AllDrawn(b)
    decreases |b|
  {
    if b == [] {
      assert a + b == a;
    } else {
      var n := |b| - 1;
      assert (a + b)[..|a + b| - 1] == a + b[..n] && (a + b)[|a + b| - 1] == b[n];
      AllDrawnConcat(a, b[..n]);
    }
  }

  /** A legal run is legal in both its parts. */
  lemma LegalParts(w: World, a: seq<Op>, b: seq<Op>)
    requires LegalRun(w, a + b)
    ensures LegalRun(w, a) && LegalRun(ApplyAll(w, a), b)
  {
    hide Fits, ApplyAll;
    forall k | 0 <= k < |a| ensures Fits(ApplyAll(w, a[..k]), a[k]) {
      assert (a + b)[..k] == a[..k] && (a + b)[k] == a[k];
    }
    forall k | 0 <= k < |b| ensures Fits(ApplyAll(ApplyAll(w, a), b[..k]), b[k]) {
      assert (a + b)[..|a| + k] == a + b[..k] && (a + b)[|a| + k] == b[k];
      ApplyAllConcat(w, a, b[..k]);
    }
  }

  lemma FreshParts(used: set<Uuid>, a: seq<Op>, b: seq<Op>)
    requires FreshNames(used, a + b)
    ensures FreshNames(used, a) && FreshNames(used + AllDrawn(a), b)
  {
    hide Drawn, AllDrawn;
    forall k | 0 <= k < |a| ensures Drawn(a[k]) !! used + AllDrawn(a[..k]) {
      assert (a + b)[..k] == a[..k] && (a + b)[k] == a[k];
    }
    forall k | 0 <= k < |b| ensures Drawn(b[k]) !! used + AllDrawn(a) + AllDrawn(b[..k]) {
      assert (a + b)[..|a| + k] == a + b[..k] && (a + b)[|a| + k] == b[k];
      AllDrawnConcat(a, b[..k]);
    }
  }

  lemma FreshAmong(used: set<Uuid>, fewer: set<Uuid>, ops: seq<Op>)
    requires FreshNames(used, ops) && fewer <= used
    ensures FreshNames(fewer, ops)
  {
    hide Drawn, AllDrawn;
  }

  lemma NewIdsParts(w: World, a: seq<Op>, b: seq<Op>)
    requires NewIds(w, a + b)
    ensures NewIds(w, a) && NewIds(ApplyAll(w, a), b)
  {
    hide NewId, ApplyAll;
    forall k | 0 <= k < |a| ensures NewId(ApplyAll(w, a[..k]), a[k]) {
      assert (a + b)[..k] == a[..k] && (a + b)[k] == a[k];
    }
    forall k | 0 <= k < |b| ensures NewId(ApplyAll(ApplyAll(w, a), b[..k]), b[k]) {
      assert (a + b)[..|a| + k] == a + b[..k] && (a + b)[|a| + k] == b[k];
      ApplyAllConcat(w, a, b[..k]);
    }
  }

  /**
   Every legal run keeps both directories consistent and leaves exactly the names and symlinks that the plain maps
   and lists have. No two files get the same name, and clean buckets are left alone.
   */
  method Run(l: Dirnode, r: Dirnode, ops: seq<Op>)
    requires l.Valid() && r.Valid() && l != r && FilesOf(l) !! FilesOf(r)
    requires LegalRun(Views(l, r), ops) && FreshNames(FilesOf(l) + FilesOf(r), ops)
    modifies l, r
    ensures l.Valid() && r.Valid() && FilesOf(l) !! FilesOf(r)
    ensures Views(l, r) == ApplyAll(old(Views(l, r)), ops)
    ensures Grows(old(ShapeOf(l)), ShapeOf(l), |ops|, AllDrawn(ops))
    ensures Grows(old(ShapeOf(r)), ShapeOf(r), |ops|, AllDrawn(ops))
    ensures old(l.UuidsExact() && r.UuidsExact() && NewIds(Views(l, r), ops)) ==> l.UuidsExact() && r.UuidsExact()
    ensures old(Tidy(l) && Tidy(r)) && AllModest(ops) ==> Tidy(l) && Tidy(r)
  {
    hide Stored, Indexed, UuidSound, UuidIndexed, SumLen, SumLinks, HasBucket, Touched, NamesOk, LinksSound, Apply,
      FileNames, Fits, NewId, Drawn, Tidy, Modest;
    ghost var w, ls, rs := Views(l, r), ShapeOf(l), ShapeOf(r);
    GrowsNothing(ls, 0, {});
    GrowsNothing(rs, 0, {});
    for k := 0 to |ops|
      invariant l.Valid() && r.Valid() && FilesOf(l) !! FilesOf(r)
      invariant Views(l, r) == ApplyAll(w, ops[..k])
      invariant Grows(ls, ShapeOf(l), k, AllDrawn(ops[..k])) && Grows(rs, ShapeOf(r), k, AllDrawn(ops[..k]))
      invariant old(l.UuidsExact() && r.UuidsExact() && NewIds(Views(l, r), ops)) ==> l.UuidsExact() && r.UuidsExact()
      invariant old(Tidy(l) && Tidy(r)) && AllModest(ops) ==> Tidy(l) && Tidy(r)
    {
      ghost var ls', rs' := ShapeOf(l), ShapeOf(r);
      Perform(l, r, ops[k]);
      FilesApart(ls', ShapeOf(l), rs', ShapeOf(r), ops[k]);
      GrowsAgain(ls, ls', ShapeOf(l), k, AllDrawn(ops[..k]), Drawn(ops[k]));
      GrowsAgain(rs, rs', ShapeOf(r), k, AllDrawn(ops[..k]), Drawn(ops[k]));
      assert ops[..k + 1][..k] == ops[..k];
    }
    assert ops[..|ops|] == ops;
  }
}
