/**
 The state behind batch-mode metadata write-back.

 In batch mode a metadata object lives in up to three places: the volume's metadata
 store, a copy in the batch store, and a buffer in memory.  Flags on the buffer decide
 which of them counts.  A `Slot` gathers the three places for one object.  `Pending` is
 the store that the next sync would leave behind, and `Sound` is the invariant under
 which every read agrees with it.
 */
module BatchState {
  import opened Prelude

  datatype File = File(content: Bytes, mtime: nat)

  type Store = map<Uuid, File>

  datatype Flags = Flags(read: bool, write: bool, create: bool, crypto: bool, fnode: bool)

  const NO_FLAGS := Flags(false, false, false, false, false)

  /** `struct metadata_buf`. */
  datatype Buf = Buf(
    content: Option<Bytes>,
    bufferTime: nat,
    ioFlags: Flags,
    fileHandle: bool,
    batchHandle: bool,
    syncFileExists: bool,
    batchFileExists: bool,
    created: bool,
    modified: bool,
    dirty: bool,
    syncing: bool)

  const FRESH_BUF := Buf(None, 0, NO_FLAGS, false, false, false, false, false, false, false, false)

  datatype State = State(
    batchMode: bool,
    metadata: Store,
    batch: Store,
    bufs: map<Uuid, Buf>,
    deleted: seq<Uuid>,
    clock: nat)

  /** Everything known about one object. */
  datatype Slot = Slot(meta: Option<File>, copy: Option<File>, buf: Option<Buf>, deleted: bool)

  function Find<V>(m: map<Uuid, V>, u: Uuid): Option<V> {
    if u in m then Some(m[u]) else None
  }

  function At(s: State, u: Uuid): Slot {
    Slot(Find(s.metadata, u), Find(s.batch, u), Find(s.bufs, u), u in s.deleted)
  }

  function Content(f: Option<File>): Option<Bytes> {
    if f.Some? then Some(f.value.content) else None
  }

  /** What the next sync will store for the object, if anything. */
  function Due(t: Slot): Option<Bytes> {
    if t.deleted then None
    else if t.buf.Some? && t.buf.value.modified then
      if t.buf.value.dirty then t.buf.value.content else Content(t.copy)
    else Content(t.meta)
  }

  function Contents(s: Store): map<Uuid, Bytes> {
    map u | u in s :: s[u].content
  }

  /** The metadata store as the next sync would leave it. */
  function Pending(s: State): map<Uuid, Bytes> {
    map u | u in s.metadata.Keys + s.bufs.Keys && Due(At(s, u)).Some? :: Due(At(s, u)).value
  }

  /** The metadata objects as the clients of this layer should see them. */
  function Objects(s: State): map<Uuid, Bytes> {
    if s.batchMode then Pending(s) else Contents(s.metadata)
  }

  function Object(s: State, u: Uuid): Option<Bytes> {
    if s.batchMode then Due(At(s, u)) else Content(At(s, u).meta)
  }

  lemma ObjectIs(s: State, u: Uuid)
    ensures Find(Objects(s), u) == Object(s, u)
  {
  }

  ghost predicate FileSound(f: Option<File>, clock: nat) {
    f.Some? ==> 1 <= f.value.mtime <= clock
  }

  /** Where the value of a buffered object may live, and which copies agree. */
  ghost predicate BufSound(mode: bool, clock: nat, meta: Option<File>, copy: Option<File>, b: Buf) {
    && !b.syncing && b.bufferTime <= clock
    && (b.content.None? ==> b.bufferTime == 0)
    && (b.batchHandle ==> b.batchFileExists)
    && (b.fileHandle ==> meta.Some?)
    && (b.batchFileExists ==> copy.Some?)
    && (b.created ==> b.batchFileExists && meta.None?)
    && (b.batchFileExists && !b.created ==> meta.Some? && b.syncFileExists)
    && (b.modified ==> mode && b.batchFileExists)
    && (b.dirty ==> b.modified && b.content.Some?)
    && (b.modified && !b.dirty && b.content.Some? ==> Content(copy) == b.content)
    && (!b.modified && b.content.Some? && meta.Some? ==> Content(meta) == b.content)
    && (b.batchFileExists && !b.modified && !b.created && b.content.None? ==> Content(copy) == Content(meta))
    && (b.batchFileExists && !b.dirty && b.content.Some? ==>
          copy.value.mtime <= b.bufferTime || Content(copy) == b.content)
  }

  ghost predicate SlotSound(mode: bool, clock: nat, t: Slot) {
    && FileSound(t.meta, clock) && FileSound(t.copy, clock)
    && (t.buf.Some? ==> !t.deleted && BufSound(mode, clock, t.meta, t.copy, t.buf.value))
  }

  ghost predicate Sound(s: State) {
    forall u :: SlotSound(s.batchMode, s.clock, At(s, u))
  }

  /** Only `u` may differ between the two states, and time may pass. */
  ghost predicate OnlyAt(s: State, s': State, u: Uuid) {
    && s.batchMode == s'.batchMode && s.clock <= s'.clock
    && forall v | v != u :: At(s', v) == At(s, v)
  }

  lemma OnlyAtTransitive(s: State, s': State, s'': State, u: Uuid)
    requires OnlyAt(s, s', u) && OnlyAt(s', s'', u)
    ensures OnlyAt(s, s'', u)
  {
    forall v | v != u ensures At(s'', v) == At(s, v) {
      assert At(s', v) == At(s, v);
    }
  }

  /** Soundness is checked one object at a time. */
  lemma SoundAt(s: State, s': State, u: Uuid)
    requires Sound(s) && OnlyAt(s, s', u) && SlotSound(s'.batchMode, s'.clock, At(s', u))
    ensures Sound(s')
  {
    forall v ensures SlotSound(s'.batchMode, s'.clock, At(s', v)) {
      assert SlotSound(s.batchMode, s.clock, At(s, v));
    }
  }

  function Bound(objects: map<Uuid, Bytes>, u: Uuid, c: Option<Bytes>): map<Uuid, Bytes> {
    if c.Some? then objects[u := c.value] else objects - {u}
  }

  /** What happens to one object changes the directory at that object only. */
  lemma ObjectsOnlyAt(s: State, s': State, u: Uuid)
    requires OnlyAt(s, s', u)
    ensures Objects(s') == Bound(Objects(s), u, Object(s', u))
  {
    var expected := Bound(Objects(s), u, Object(s', u));
    forall v ensures Find(Objects(s'), v) == Find(expected, v) {
      ObjectIs(s, v);
      ObjectIs(s', v);
      if v != u { assert At(s', v) == At(s, v); }
    }
    SameMap(Objects(s'), expected);
  }

  lemma ObjectsSame(s: State, s': State, u: Uuid)
    requires OnlyAt(s, s', u) && Object(s, u) == Object(s', u)
    ensures Objects(s') == Objects(s)
  {
    ObjectsOnlyAt(s, s', u);
    ObjectIs(s, u);
  }

  lemma SameMap(m: map<Uuid, Bytes>, m': map<Uuid, Bytes>)
    requires forall v :: Find(m, v) == Find(m', v)
    ensures m == m'
  {
    forall v ensures v in m <==> v in m'
             ensures v in m ==> m[v] == m'[v]
    {
      assert Find(m, v) == Find(m', v);
    }
  }

  // ---------------------------------------------------------------- what opening does to a slot

  predicate NeedsCopy(b: Buf, flags: Flags) {
    !flags.create && !b.created && !b.batchFileExists
  }

  predicate CanOpenBatch(t: Slot, flags: Flags)
    requires t.buf.Some?
  {
    flags.create || t.meta.Some? || t.buf.value.created || t.buf.value.batchFileExists
  }

  /** Opened in the batch store, after making the copy there if need be. */
  function OpenedInBatch(t: Slot, flags: Flags, now: nat): Slot
    requires t.buf.Some? && CanOpenBatch(t, flags)
  {
    var b := t.buf.value;
    if NeedsCopy(b, flags) then
      t.(copy := Some(File(t.meta.value.content, now)),
         buf := Some(b.(ioFlags := flags, batchHandle := true, batchFileExists := true, syncFileExists := true)))
    else
      t.(copy := if t.copy.None? then Some(File([], now)) else t.copy,
         buf := Some(b.(ioFlags := flags, batchHandle := true,
                        created := b.created || flags.create,
                        batchFileExists := b.batchFileExists || flags.create)))
  }

  /** Opened in the metadata store. */
  function OpenedDirectly(t: Slot, flags: Flags, now: nat): Slot
    requires t.buf.Some? && (flags.create || t.meta.Some?)
  {
    t.(meta := if t.meta.None? then Some(File([], now)) else t.meta,
       buf := Some(t.buf.value.(ioFlags := flags, fileHandle := true, syncFileExists := true)))
  }

  lemma OpenedInBatchSound(t: Slot, flags: Flags, clock: nat, now: nat)
    requires SlotSound(true, clock, t) && clock <= now && 1 <= now && t.buf.Some? && CanOpenBatch(t, flags)
    requires flags.create ==> t.meta.None? && t.copy.None? && !t.buf.value.modified && t.buf.value.content.None?
    ensures SlotSound(true, now, OpenedInBatch(t, flags, now))
    ensures Due(OpenedInBatch(t, flags, now)) == Due(t)
  {
  }

  lemma OpenedDirectlySound(t: Slot, flags: Flags, clock: nat, now: nat)
    requires SlotSound(false, clock, t) && clock <= now && 1 <= now && t.buf.Some? && (flags.create || t.meta.Some?)
    requires flags.create ==> t.buf.value == FRESH_BUF
    ensures SlotSound(false, now, OpenedDirectly(t, flags, now))
  {
  }

  /** What the operations need to know about a sound buffer. */
  lemma SoundBuf(mode: bool, clock: nat, t: Slot)
    requires SlotSound(mode, clock, t) && t.buf.Some?
    ensures var b := t.buf.value;
            && !t.deleted && !b.syncing && b.bufferTime <= clock
            && (b.batchFileExists || b.created ==> t.copy.Some?)
            && (b.modified ==> mode && (b.created || t.meta.Some?))
            && (b.batchHandle ==> b.batchFileExists)
            && (b.fileHandle ==> t.meta.Some?)
    ensures mode && Due(t).Some? ==> forall flags :: CanOpenBatch(t, flags)
  {
  }

  lemma FreshSound(mode: bool, clock: nat, t: Slot)
    requires SlotSound(mode, clock, t) && !t.deleted && t.buf.None?
    ensures SlotSound(mode, clock, t.(buf := Some(FRESH_BUF)))
    ensures Due(t.(buf := Some(FRESH_BUF))) == Due(t)
  {
  }

  /** The file that a `stat` of the object reports. */
  function Current(mode: bool, t: Slot): Option<File> {
    if mode && t.buf.Some? && t.buf.value.batchFileExists then t.copy else t.meta
  }

  function WithBuf(t: Slot): Slot {
    if t.buf.Some? then t else t.(buf := Some(FRESH_BUF))
  }

  predicate CanOpen(mode: bool, t: Slot, flags: Flags)
    requires t.buf.Some?
  {
    if mode then CanOpenBatch(t, flags) else flags.create || t.meta.Some?
  }

  function Opened(mode: bool, t: Slot, flags: Flags, now: nat): Slot
    requires t.buf.Some? && CanOpen(mode, t, flags)
  {
    if mode then OpenedInBatch(t, flags, now) else OpenedDirectly(t, flags, now)
  }

  lemma OpenedSound(mode: bool, t: Slot, flags: Flags, clock: nat, now: nat)
    requires SlotSound(mode, clock, t) && clock <= now && 1 <= now && t.buf.Some? && CanOpen(mode, t, flags)
    requires flags.create ==> t.meta.None? && t.copy.None? && t.buf.value == FRESH_BUF
    ensures SlotSound(mode, now, Opened(mode, t, flags, now))
    ensures mode ==> Due(Opened(mode, t, flags, now)) == Due(t)
  {
    if mode { OpenedInBatchSound(t, flags, clock, now); } else { OpenedDirectlySound(t, flags, clock, now); }
  }

  /** Opening for anything but creation shows the same content as before. */
  lemma OpenedShowsSame(mode: bool, clock: nat, t: Slot, flags: Flags, now: nat)
    requires SlotSound(mode, clock, t) && !flags.create && t.buf.Some? && Current(mode, t).Some?
    ensures CanOpen(mode, t, flags)
    ensures var t' := Opened(mode, t, flags, now);
            && Content(Current(mode, t')) == Content(Current(mode, t))
            && (Current(mode, t') == Current(mode, t) || Content(t'.copy) == Content(t'.meta))
  {
  }

  /** Closing a handle also declares the buffer clean. */
  function Closed(b: Buf): Buf {
    b.(fileHandle := false, batchHandle := false, ioFlags := NO_FLAGS, dirty := false)
  }

  function Refreshed(t: Slot, c: Option<Bytes>, now: nat): Slot
    requires t.buf.Some?
  {
    t.(buf := Some(t.buf.value.(content := c, bufferTime := now)))
  }

  /** Filling a clean buffer from the current file keeps the object what it was. */
  lemma RefreshSound(mode: bool, clock: nat, now: nat, t: Slot)
    requires SlotSound(mode, clock, t) && clock <= now && t.buf.Some? && !t.buf.value.dirty
    requires Current(mode, t).Some?
    requires t.buf.value.bufferTime < Current(mode, t).value.mtime || Content(t.copy) == Content(t.meta)
    ensures SlotSound(mode, now, Refreshed(t, Content(Current(mode, t)), now))
    ensures Due(Refreshed(t, Content(Current(mode, t)), now)) == Due(t)
    ensures mode && Due(t).Some? ==> Content(Current(mode, t)) == Due(t)
  {
  }

  lemma ClosedSound(mode: bool, clock: nat, t: Slot)
    requires SlotSound(mode, clock, t) && t.buf.Some? && (t.buf.value.dirty ==> Content(t.copy) == t.buf.value.content)
    ensures SlotSound(mode, clock, t.(buf := Some(Closed(t.buf.value))))
    ensures Due(t.(buf := Some(Closed(t.buf.value)))) == Due(t)
  {
  }

  /** A buffer that is dirty or was ever filled holds the object. */
  lemma CachedIs(mode: bool, clock: nat, t: Slot)
    requires SlotSound(mode, clock, t) && t.buf.Some? && (t.buf.value.dirty || 1 <= t.buf.value.bufferTime)
    ensures t.buf.value.content.Some?
    ensures mode && Due(t).Some? ==> t.buf.value.content == Due(t)
    ensures !mode && t.meta.Some? ==> t.buf.value.content == Content(t.meta)
  {
  }

  /** Whatever the clients should see in the object, a `stat` finds a file for it. */
  lemma StatFinds(mode: bool, clock: nat, t: Slot)
    requires SlotSound(mode, clock, t)
    ensures mode && Due(t).Some? ==> Current(mode, t).Some?
    ensures Current(mode, t).Some? ==> 1 <= Current(mode, t).value.mtime
    ensures t.buf.Some? && t.buf.value.batchFileExists ==> t.copy.Some?
  {
  }

  predicate AnyOpen(t: Slot) {
    t.buf.Some? && (t.buf.value.fileHandle || t.buf.value.batchHandle)
  }

  predicate HandleOpen(mode: bool, b: Buf) {
    if mode then b.batchHandle else b.fileHandle
  }

  predicate UpToDate(t: Slot, stat: File) {
    t.buf.Some? && (t.buf.value.dirty || stat.mtime <= t.buf.value.bufferTime)
  }

  /** The slot after a read that was told `stat` about the file. */
  function ReadSlot(mode: bool, t: Slot, flags: Flags, stat: File, now: nat): Slot
    requires CanOpen(mode, WithBuf(t), flags)
  {
    var t0 := WithBuf(t);
    if UpToDate(t, stat) then t
    else if stat.content == [] then Refreshed(t0, Some([]), now)
    else LoadedSlot(mode, t0, flags, now)
  }

  /** The slot after its file was read, and opened for that if it was not open already. */
  function LoadedSlot(mode: bool, t: Slot, flags: Flags, now: nat): Slot
    requires t.buf.Some? && CanOpen(mode, t, flags)
  {
    if HandleOpen(mode, t.buf.value) then
      Refreshed(t, Content(if mode then t.copy else t.meta), now)
    else
      var t1 := Opened(mode, t, flags, now);
      Refreshed(t1.(buf := Some(Closed(t1.buf.value))), Content(if mode then t1.copy else t1.meta), now)
  }

  /** What a read promises about the slot `t'` it leaves behind. */
  ghost predicate ReadOk(mode: bool, now: nat, t: Slot, t': Slot) {
    && SlotSound(mode, now, t') && Due(t') == Due(t) && t'.meta == t.meta
    && t'.buf.Some? && t'.buf.value.content.Some?
    && (mode && Due(t).Some? ==> t'.buf.value.content == Due(t))
    && (!mode ==> t'.buf.value.content == Content(t.meta))
    && (HandleOpen(mode, t'.buf.value) <==> HandleOpen(mode, WithBuf(t).buf.value))
    && (HandleOpen(mode, t'.buf.value) ==> t'.buf.value.ioFlags == WithBuf(t).buf.value.ioFlags)
    && (AnyOpen(t') ==> AnyOpen(t)) && FlagsKept(WithBuf(t).buf.value, t'.buf.value)
  }

  /** Reading a buffer in does not change what a sync will do with it. */
  predicate FlagsKept(b: Buf, b': Buf) {
    && b'.created == b.created && b'.modified == b.modified && b'.dirty == b.dirty
    && (b.syncFileExists ==> b'.syncFileExists)
  }

  lemma FlagsSame(b: Buf)
    ensures FlagsKept(b, b)
  {
  }

  lemma FlagsKeptAgain(a: Buf, b: Buf, c: Buf)
    requires FlagsKept(a, b) && FlagsKept(b, c)
    ensures FlagsKept(a, c)
  {
  }

  lemma OpenedKeepsFlags(mode: bool, t: Slot, flags: Flags, now: nat)
    requires t.buf.Some? && CanOpen(mode, t, flags) && !flags.create
    ensures FlagsKept(t.buf.value, Opened(mode, t, flags, now).buf.value)
    ensures Opened(mode, t, flags, now).meta == t.meta
  {
  }

  lemma LoadSound(mode: bool, clock: nat, now: nat, t: Slot, flags: Flags)
    requires SlotSound(mode, clock, t) && t.buf.Some? && !t.buf.value.dirty && clock <= now && 1 <= now && !flags.create
    requires Current(mode, t).Some?
    requires t.buf.value.bufferTime < Current(mode, t).value.mtime || Content(t.copy) == Content(t.meta)
    requires !mode ==> t.meta.Some?
    ensures CanOpen(mode, t, flags) && ReadOk(mode, now, t, LoadedSlot(mode, t, flags, now))
  {
    hide SlotSound;
    SoundBuf(mode, clock, t);
    OpenedShowsSame(mode, clock, t, flags, now);
    if HandleOpen(mode, t.buf.value) {
      RefreshSound(mode, clock, now, t);
    } else {
      if mode { OpenedInBatchSound(t, flags, clock, now); } else { OpenedDirectlySound(t, flags, clock, now); }
      var t1 := Opened(mode, t, flags, now);
      ClosedSound(mode, now, t1);
      SoundBuf(mode, now, t1);
      RefreshSound(mode, now, now, t1.(buf := Some(Closed(t1.buf.value))));
    }
  }

  /** A read keeps the slot sound, does not change the object, and ends with it in the buffer. */
  lemma ReadSound(mode: bool, clock: nat, now: nat, t: Slot, flags: Flags, stat: File)
    requires SlotSound(mode, clock, t) && !t.deleted && clock <= now && 1 <= now && !flags.create
    requires Current(mode, t).Some? && stat.content == Current(mode, t).value.content && 1 <= stat.mtime
    requires stat == Current(mode, t).value || (t.buf.Some? && Content(t.copy) == Content(t.meta))
    ensures CanOpen(mode, WithBuf(t), flags)
    ensures ReadOk(mode, now, t, ReadSlot(mode, t, flags, stat, now))
  {
    hide SlotSound, LoadedSlot;
    var t0 := WithBuf(t);
    if t.buf.None? { FreshSound(mode, clock, t); }
    OpenedShowsSame(mode, clock, t0, flags, now);
    if UpToDate(t, stat) {
      LaterSound(mode, clock, now, t);
      CachedIs(mode, clock, t);
    } else if stat.content == [] {
      RefreshSound(mode, clock, now, t0);
    } else {
      LoadSound(mode, clock, now, t0, flags);
    }
  }

  /** An object deleted in this session is gone, yet a read before the next sync still returns it. */
  lemma DeletedStaysReadable(clock: nat, now: nat, t: Slot, flags: Flags)
    requires SlotSound(true, clock, t) && t.deleted && t.meta.Some? && clock <= now && 1 <= now && !flags.create
    ensures Due(t).None? && CanOpen(true, WithBuf(t), flags)
    ensures ReadSlot(true, t, flags, t.meta.value, now).buf.value.content == Content(t.meta)
  {
  }

  /** The slot after its object was put with content `c`. */
  function PutSlot(mode: bool, t: Slot, c: Bytes, now: nat): Slot
    requires t.buf.Some?
  {
    var b := t.buf.value;
    var fnode := b.ioFlags.fnode;
    t.(meta := if mode then t.meta else Some(File(c, now)),
       copy := if mode && fnode then Some(File(c, now)) else t.copy,
       buf := Some(b.(content := Some(c), bufferTime := now, ioFlags := NO_FLAGS,
                      fileHandle := false, batchHandle := false,
                      modified := b.modified || mode, dirty := mode && !fnode)))
  }

  lemma PutSound(mode: bool, clock: nat, now: nat, t: Slot, c: Bytes)
    requires SlotSound(mode, clock, t) && clock <= now && 1 <= now && t.buf.Some?
    requires if mode then t.buf.value.batchHandle else t.buf.value.fileHandle
    ensures SlotSound(mode, now, PutSlot(mode, t, c, now))
    ensures mode ==> Due(PutSlot(mode, t, c, now)) == Some(c)
  {
  }

  /** The slot after its object was deleted: listed for the store only where the buffer knows of a file there. */
  function DeletedSlot(mode: bool, t: Slot): Slot {
    if mode then
      Slot(t.meta, None, None, t.deleted || (t.buf.Some? && t.buf.value.syncFileExists))
    else
      Slot(None, t.copy, None, t.deleted)
  }

  lemma DeletedSound(mode: bool, clock: nat, now: nat, t: Slot)
    requires SlotSound(mode, clock, t) && clock <= now
    ensures SlotSound(mode, now, DeletedSlot(mode, t))
  {
  }

  /** The slot after its pending value was synced to the metadata store. */
  function SyncedSlot(t: Slot, now: nat): Slot
    requires t.buf.Some? && Due(t).Some?
  {
    var b := t.buf.value;
    t.(meta := Some(File(Due(t).value, now)),
       buf := Some((if b.dirty then Closed(b).(syncFileExists := true) else b)
                   .(created := false, modified := false, batchFileExists := false)))
  }

  lemma SyncedSound(clock: nat, now: nat, t: Slot)
    requires SlotSound(true, clock, t) && clock <= now && 1 <= now && t.buf.Some? && t.buf.value.modified
    requires !t.buf.value.batchHandle && !t.buf.value.fileHandle
    ensures Due(t).Some? && SlotSound(true, now, SyncedSlot(t, now)) && Due(SyncedSlot(t, now)) == Due(t)
  {
  }

  lemma ModifiedIsDue(clock: nat, t: Slot)
    requires SlotSound(true, clock, t) && t.buf.Some? && t.buf.value.modified
    ensures Due(t).Some?
  {
  }

  /** The slot after a sync has come to its buffer, if it has one to write. */
  function SyncSlot(t: Slot, now: nat): Slot {
    if t.buf.Some? && t.buf.value.modified && Due(t).Some? then SyncedSlot(t, now) else t
  }

  lemma SyncSlotNothing(t: Slot, now: nat)
    requires t.buf.None?
    ensures SyncSlot(t, now) == t
  {
  }

  /** The slot after the listed deletions have been done. */
  function Swept(t: Slot): Slot {
    if t.deleted then t.(meta := None, deleted := false) else t
  }

  /** The slot after a whole sync, which does nothing at all where there is no buffer. */
  function CommitSlot(t: Slot, now: nat, anyBuffer: bool): Slot {
    if anyBuffer then Swept(SyncSlot(t, now)) else t
  }

  lemma SyncSlotSound(clock: nat, now: nat, t: Slot)
    requires SlotSound(true, clock, t) && clock <= now && 1 <= now && !AnyOpen(t)
    ensures SlotSound(true, now, SyncSlot(t, now)) && Due(SyncSlot(t, now)) == Due(t) && !AnyOpen(SyncSlot(t, now))
    ensures SyncSlot(t, now).buf.Some? == t.buf.Some? && SyncSlot(t, now).deleted == t.deleted
    ensures t.buf.Some? ==> !SyncSlot(t, now).buf.value.modified
  {
    hide SlotSound;
    LaterSound(true, clock, now, t);
    if t.buf.Some? && t.buf.value.modified { SyncedSound(clock, now, t); }
  }

  lemma SweptSound(clock: nat, t: Slot)
    requires SlotSound(true, clock, t)
    ensures SlotSound(true, clock, Swept(t)) && Due(Swept(t)) == Due(t) && Swept(t).buf == t.buf && !Swept(t).deleted
  {
  }

  /** A whole sync, slot by slot, changes nothing that is pending. */
  lemma CommitSound(s: State, s': State, now: nat)
    requires Sound(s) && AllClosed(s) && s.batchMode && s'.batchMode && s.clock <= now == s'.clock && 1 <= now
    requires forall u :: At(s', u) == CommitSlot(At(s, u), now, s.bufs != map[])
    ensures Sound(s') && AllClosed(s') && Pending(s') == Pending(s)
    ensures s'.bufs.Keys == s.bufs.Keys && forall u | u in s'.bufs :: !s'.bufs[u].modified
  {
    hide SlotSound, Due, SyncSlot, Swept;
    forall u ensures SlotSound(true, now, At(s', u)) && Due(At(s', u)) == Due(At(s, u)) && !AnyOpen(At(s', u))
             ensures At(s', u).buf.Some? == At(s, u).buf.Some?
             ensures u in s'.bufs ==> !s'.bufs[u].modified
    {
      assert SlotSound(true, s.clock, At(s, u)) && At(s', u) == CommitSlot(At(s, u), now, s.bufs != map[]);
      assert !AnyOpen(At(s, u));
      LaterSound(true, s.clock, now, At(s, u));
      SyncSlotSound(s.clock, now, At(s, u));
      SweptSound(now, SyncSlot(At(s, u), now));
    }
    forall u ensures u in s'.bufs <==> u in s.bufs { assert At(s', u).buf.Some? == At(s, u).buf.Some?; }
    SamePending(s, s');
  }

  lemma SamePending(s: State, s': State)
    requires s.batchMode && s'.batchMode && forall u :: Due(At(s', u)) == Due(At(s, u))
    ensures Pending(s') == Pending(s)
  {
    hide Due, Pending;
    forall u ensures Find(Pending(s'), u) == Find(Pending(s), u) {
      ObjectIs(s, u);
      ObjectIs(s', u);
    }
    SameMap(Pending(s'), Pending(s));
  }

  /** With nothing modified and nothing to delete, the metadata store is what is pending. */
  lemma PendingSettled(s: State)
    requires forall u | u in s.bufs :: !s.bufs[u].modified
    ensures Pending(s) == map u | u in s.metadata && u !in s.deleted :: s.metadata[u].content
  {
  }

  /** The listed deletions are what separates a settled metadata store from what is pending. */
  lemma Settled(s: State)
    requires forall u | u in s.bufs :: !s.bufs[u].modified
    ensures Contents(s.metadata) == Pending(s) <==> forall u | u in s.deleted :: u !in s.metadata
  {
    PendingSettled(s);
    if u :| u in s.deleted && u in s.metadata {
      assert u in Contents(s.metadata) && u !in Pending(s);
    }
  }

  predicate AllClosed(s: State) {
    forall u | u in s.bufs :: !AnyOpen(At(s, u))
  }

  lemma StillClosed(s: State, s': State, u: Uuid)
    requires AllClosed(s) && OnlyAt(s, s', u) && !AnyOpen(At(s', u))
    ensures AllClosed(s')
  {
    forall v | v in s'.bufs ensures !AnyOpen(At(s', v)) {
      if v != u { assert At(s', v) == At(s, v); }
    }
  }

  lemma ObjectsDirect(s: State)
    requires !s.batchMode
    ensures Objects(s) == Contents(s.metadata)
  {
  }

  lemma NoOtherBufs(s: State, s': State, u: Uuid)
    requires OnlyAt(s, s', u) && s.bufs == map[] && u !in s'.bufs
    ensures s'.bufs == map[]
  {
    forall v ensures v !in s'.bufs {
      if v != u { assert At(s', v) == At(s, v); }
    }
  }

  lemma LaterSound(mode: bool, clock: nat, now: nat, t: Slot)
    requires SlotSound(mode, clock, t) && clock <= now
    ensures SlotSound(mode, now, t)
  {
  }

  /** With nothing modified, leaving batch mode changes nothing but the mode. */
  lemma LeaveSound(s: State, s': State)
    requires Sound(s) && s.batchMode && s' == s.(batchMode := false) && forall u | u in s.bufs :: !s.bufs[u].modified
    ensures Sound(s') && (AllClosed(s) ==> AllClosed(s')) && forall u :: At(s', u) == At(s, u)
  {
    forall u ensures SlotSound(false, s.clock, At(s', u)) {
      assert SlotSound(true, s.clock, At(s, u)) && At(s', u) == At(s, u);
    }
  }

  // ---------------------------------------------------------------- the store without batching

  datatype Op = New(uuid: Uuid) | Put(uuid: Uuid, create: bool, fnode: bool, content: Bytes)
              | Get(uuid: Uuid) | Del(uuid: Uuid) | Commit

  function Direct(objects: map<Uuid, Bytes>, op: Op): map<Uuid, Bytes> {
    match op
    case New(u) => objects[u := []]
    case Put(u, _, _, c) => objects[u := c]
    case Get(_) => objects
    case Del(u) => objects - {u}
    case Commit => objects
  }

  function DirectRun(objects: map<Uuid, Bytes>, ops: seq<Op>): map<Uuid, Bytes> {
    if ops == [] then objects else Direct(DirectRun(objects, ops[..|ops| - 1]), ops[|ops| - 1])
  }

  /** What the run would have read at its `k`-th step. */
  function DirectRead(objects: map<Uuid, Bytes>, ops: seq<Op>, k: nat): Option<Bytes>
    requires k < |ops|
  {
    match ops[k]
    case Get(u) => Find(DirectRun(objects, ops[..k]), u)
    case _ => None
  }

  /** The operation makes, writes or deletes object `u`. */
  predicate Writes(op: Op, u: Uuid) {
    (op.New? || op.Put? || op.Del?) && op.uuid == u
  }

  /** What the last of the operations that wrote object `u` left there; `objects` if none did. */
  lemma {:induction false} LastWriter(objects: map<Uuid, Bytes>, ops: seq<Op>, u: Uuid, i: nat)
    requires i <= |ops| && forall k | i <= k < |ops| :: !Writes(ops[k], u)
    ensures i == 0 ==> Find(DirectRun(objects, ops), u) == Find(objects, u)
    ensures i > 0 && Writes(ops[i - 1], u) ==>
      Find(DirectRun(objects, ops), u) == match ops[i - 1]
        case New(_) => Some([])
        case Put(_, _, _, c) => Some(c)
        case _ => None
    decreases |ops|
  {
    if ops == [] {
    } else if i < |ops| {
      var n := |ops| - 1;
      assert !Writes(ops[n], u);
      LastWriter(objects, ops[..n], u, i);
    } else {
    }
  }

  /** A read sees what the last write before it left. */
  lemma ReadSeesLast(objects: map<Uuid, Bytes>, ops: seq<Op>, k: nat)
    requires k < |ops|
    ensures DirectRead(objects, ops, k)
      == if ops[k].Get? then Find(DirectRun(objects, ops[..k]), ops[k].uuid) else None
  {
  }

  // ---------------------------------------------------------------- which runs succeed, from the run alone

  const NOTHING := Slot(None, None, None, false)

  /** The identifiers that anything is kept for. */
  function Known(s: State): set<Uuid> {
    s.metadata.Keys + s.batch.Keys + s.bufs.Keys + set u | u in s.deleted
  }

  lemma KnownOnlyAt(s: State, s': State, u: Uuid)
    requires OnlyAt(s, s', u)
    ensures Known(s') <= Known(s) + {u}
  {
    forall v | v in Known(s') && v != u ensures v in Known(s) { assert At(s', v) == At(s, v); }
  }

  lemma KnownCommit(s: State, s': State, now: nat, anyBuffer: bool)
    requires forall u :: At(s', u) == CommitSlot(At(s, u), now, anyBuffer)
    ensures Known(s') <= Known(s)
  {
    forall v | v in Known(s') ensures v in Known(s) {
      assert At(s', v) == CommitSlot(At(s, v), now, anyBuffer);
    }
  }

  function NamedBy(op: Op): set<Uuid> {
    if op.Commit? then {} else {op.uuid}
  }

  function Named(ops: seq<Op>): set<Uuid> {
    if ops == [] then {} else Named(ops[..|ops| - 1]) + NamedBy(ops[|ops| - 1])
  }

  /**
   What a run tells about an object: it was made in this session and not committed since, its last write being still
   in memory or not; or the session knows of its file; or neither can be told.
   */
  datatype Mark = Foreign | Local(dirty: bool) | Reached

  function NextMark(m: Mark, op: Op, u: Uuid): Mark {
    match op
    case New(v) => if v == u then Local(false) else m
    case Put(v, create, fnode, _) =>
      if v != u then m else if create || m.Local? then Local(!fnode) else Reached
    case Get(_) => m
    case Del(v) => if v == u then Foreign else m
    case Commit => if m == Local(true) then Reached else if m == Local(false) then Foreign else m
  }

  function MarkOf(ops: seq<Op>, u: Uuid): Mark {
    if ops == [] then Foreign else NextMark(MarkOf(ops[..|ops| - 1], u), ops[|ops| - 1], u)
  }

  ghost predicate Marked(t: Slot, m: Mark) {
    match m
    case Foreign => t.buf.Some? && t.buf.value.created ==> !t.buf.value.modified
    case Local(d) =>
      t.meta.None? && t.buf.Some? && t.buf.value.created && t.buf.value.modified && t.buf.value.dirty == d
    case Reached => t.buf.Some? && t.buf.value.syncFileExists
  }

  ghost predicate MarksFollow(s: State, s': State, op: Op) {
    forall v, m | Marked(At(s, v), m) :: Marked(At(s', v), NextMark(m, op, v))
  }

  lemma MarksOne(s: State, s': State, u: Uuid, op: Op)
    requires OnlyAt(s, s', u) && !op.Commit? && op.uuid == u
    requires forall m | Marked(At(s, u), m) :: Marked(At(s', u), NextMark(m, op, u))
    ensures MarksFollow(s, s', op)
  {
    hide Marked;
    forall v, m | Marked(At(s, v), m) ensures Marked(At(s', v), NextMark(m, op, v)) {
      if v != u { assert At(s', v) == At(s, v); }
    }
  }

  lemma CommitMarked(clock: nat, now: nat, t: Slot, m: Mark, anyBuffer: bool, u: Uuid)
    requires SlotSound(true, clock, t) && (t.buf.Some? ==> anyBuffer) && Marked(t, m)
    ensures Marked(CommitSlot(t, now, anyBuffer), NextMark(m, Commit, u))
  {
  }

  lemma MarksCommit(s: State, s': State, now: nat)
    requires Sound(s) && s.batchMode && forall u :: At(s', u) == CommitSlot(At(s, u), now, s.bufs != map[])
    ensures MarksFollow(s, s', Commit)
  {
    hide Marked, CommitSlot, SlotSound;
    forall v, m | Marked(At(s, v), m) ensures Marked(At(s', v), NextMark(m, Commit, v)) {
      assert SlotSound(true, s.clock, At(s, v)) && At(s', v) == CommitSlot(At(s, v), now, s.bufs != map[]);
      CommitMarked(s.clock, now, At(s, v), m, s.bufs != map[], v);
    }
  }

  lemma PutMarked(clock: nat, now: nat, t: Slot, m: Mark, create: bool, fnode: bool, c: Bytes)
    requires SlotSound(true, clock, t) && Marked(t, m) && if create then t == NOTHING else Due(t).Some?
    ensures var flags := NO_FLAGS.(write := true, create := create, fnode := fnode);
      && CanOpen(true, WithBuf(t), flags)
      && Marked(PutSlot(true, Opened(true, WithBuf(t), flags, now), c, now),
                if create || m.Local? then Local(!fnode) else Reached)
  {
  }

  lemma KeptMarked(t: Slot, t': Slot, m: Mark)
    requires Marked(t, m) && t'.meta == t.meta && FlagsKept(WithBuf(t).buf.value, WithBuf(t').buf.value)
    requires t.buf.Some? ==> t'.buf.Some?
    ensures Marked(t', m)
  {
  }

  /** The operation is sure to have its documented effect after `ops`, whatever the state behind it. */
  predicate Sure(batched: bool, known: set<Uuid>, objects: map<Uuid, Bytes>, ops: seq<Op>, op: Op) {
    match op
    case New(u) => u !in known + Named(ops)
    case Put(u, create, _, _) => if create then u !in known + Named(ops) else u in DirectRun(objects, ops)
    case Get(u) => u in DirectRun(objects, ops)
    case Del(u) => u in DirectRun(objects, ops) && (batched ==> MarkOf(ops, u) != Foreign)
    case Commit => true
  }

  ghost predicate AllSure(batched: bool, known: set<Uuid>, objects: map<Uuid, Bytes>, ops: seq<Op>) {
    forall k | 0 <= k < |ops| :: Sure(batched, known, objects, ops[..k], ops[k])
  }

  /** The session ends with a buffer, or without anything to delete. */
  ghost predicate SureToSync(ops: seq<Op>) {
    (forall op | op in ops :: !op.Del?) || exists u :: MarkOf(ops, u) != Foreign
  }

  /** Outside batch mode nothing is waiting to be synced. */
  lemma NothingMarked(s: State)
    requires Sound(s) && !s.batchMode
    ensures forall u :: Marked(At(s, u), Foreign)
  {
    forall u ensures Marked(At(s, u), Foreign) { assert SlotSound(s.batchMode, s.clock, At(s, u)); }
  }

  lemma SameSlots(s: State, s': State)
    requires s' == s.(batchMode := s'.batchMode)
    ensures Known(s') == Known(s) && forall u :: At(s', u) == At(s, u)
  {
  }

  lemma {:induction false} NamedPrefix(ops: seq<Op>, n: nat)
    requires n <= |ops|
    ensures Named(ops[..n]) <= Named(ops)
  {
    if n == |ops| {
      assert ops[..n] == ops;
    } else {
      var last := |ops| - 1;
      NamedPrefix(ops[..last], n);
      assert ops[..last][..n] == ops[..n];
    }
  }

  /** A session that makes two objects, commits, reads one and deletes it. */
  function MakeAndDrop(u: Uuid, c: Bytes, v: Uuid, d: Bytes): seq<Op> {
    [New(u), Put(u, false, false, c), New(v), Put(v, false, false, d), Commit, Get(u), Del(u)]
  }

  /** One step of a run: what it holds, names and tells. */
  lemma RunNext(objects: map<Uuid, Bytes>, ops: seq<Op>, k: nat, u: Uuid)
    requires k < |ops|
    ensures DirectRun(objects, ops[..k + 1]) == Direct(DirectRun(objects, ops[..k]), ops[k])
    ensures Named(ops[..k + 1]) == Named(ops[..k]) + NamedBy(ops[k])
    ensures MarkOf(ops[..k + 1], u) == NextMark(MarkOf(ops[..k], u), ops[k], u)
  {
    assert ops[..k + 1][..k] == ops[..k];
  }

  lemma RunStart(objects: map<Uuid, Bytes>, ops: seq<Op>, u: Uuid)
    ensures DirectRun(objects, ops[..0]) == objects && Named(ops[..0]) == {} && MarkOf(ops[..0], u) == Foreign
  {
  }

  lemma MakeAndDropRuns(objects: map<Uuid, Bytes>, u: Uuid, c: Bytes, v: Uuid, d: Bytes)
    requires u != v && u !in objects && v !in objects
    ensures var ops := MakeAndDrop(u, c, v, d);
      && DirectRun(objects, ops) == objects[v := d] && Find(DirectRun(objects, ops[..5]), u) == Some(c)
      && (forall k | 1 <= k <= 6 :: u in DirectRun(objects, ops[..k])) && v in DirectRun(objects, ops[..3])
      && Named(ops[..0]) == {} && Named(ops[..2]) == {u}
  {
    hide DirectRun, Named, MarkOf, NextMark;
    var ops := MakeAndDrop(u, c, v, d);
    RunStart(objects, ops, u);
    RunNext(objects, ops, 0, u);
    RunNext(objects, ops, 1, u);
    RunNext(objects, ops, 2, u);
    RunNext(objects, ops, 3, u);
    RunNext(objects, ops, 4, u);
    RunNext(objects, ops, 5, u);
    RunNext(objects, ops, 6, u);
    assert ops[..7] == ops;
    assert objects[u := []][u := c][v := []][v := d] - {u} == objects[v := d];
  }

  lemma MakeAndDropMarks(u: Uuid, c: Bytes, v: Uuid, d: Bytes)
    requires u != v
    ensures var ops := MakeAndDrop(u, c, v, d); MarkOf(ops[..6], u) == Reached && MarkOf(ops, v) == Reached
  {
    hide DirectRun, Named, MarkOf, Direct;
    var ops, none := MakeAndDrop(u, c, v, d), map[];
    RunStart(none, ops, u);
    RunStart(none, ops, v);
    RunNext(none, ops, 0, u);
    RunNext(none, ops, 1, u);
    RunNext(none, ops, 2, u);
    RunNext(none, ops, 3, u);
    RunNext(none, ops, 4, u);
    RunNext(none, ops, 5, u);
    RunNext(none, ops, 0, v);
    RunNext(none, ops, 1, v);
    RunNext(none, ops, 2, v);
    RunNext(none, ops, 3, v);
    RunNext(none, ops, 4, v);
    RunNext(none, ops, 5, v);
    RunNext(none, ops, 6, v);
    assert ops[..7] == ops;
  }

  /** That session is sure to succeed for two new names. */
  lemma MakeAndDropIsSure(known: set<Uuid>, objects: map<Uuid, Bytes>, u: Uuid, c: Bytes, v: Uuid, d: Bytes)
    requires u != v && u !in known && v !in known && objects.Keys <= known
    ensures var ops := MakeAndDrop(u, c, v, d); AllSure(true, known, objects, ops) && SureToSync(ops)
  {
    hide DirectRun, Named, MarkOf;
    var ops := MakeAndDrop(u, c, v, d);
    MakeAndDropRuns(objects, u, c, v, d);
    MakeAndDropMarks(u, c, v, d);
    forall k | 0 <= k < |ops| ensures Sure(true, known, objects, ops[..k], ops[k]) {
    }
  }

  // ---------------------------------------------------------------- histories of sessions

  datatype Part = Part(batched: bool, ops: seq<Op>)

  function OpsOf(parts: seq<Part>): seq<Op> {
    if parts == [] then [] else OpsOf(parts[..|parts| - 1]) + parts[|parts| - 1].ops
  }

  ghost predicate SurePart(known: set<Uuid>, objects: map<Uuid, Bytes>, part: Part) {
    AllSure(part.batched, known, objects, part.ops) && (part.batched ==> SureToSync(part.ops))
  }

  ghost predicate SureHistory(known: set<Uuid>, objects: map<Uuid, Bytes>, parts: seq<Part>) {
    forall i | 0 <= i < |parts| ::
      SurePart(known + Named(OpsOf(parts[..i])), DirectRun(objects, OpsOf(parts[..i])), parts[i])
  }

  lemma SureNext(known: set<Uuid>, fewer: set<Uuid>, objects: map<Uuid, Bytes>, parts: seq<Part>, i: nat)
    requires i < |parts| && SureHistory(known, objects, parts) && fewer <= known + Named(OpsOf(parts[..i]))
    ensures SurePart(fewer, DirectRun(objects, OpsOf(parts[..i])), parts[i])
  {
    hide DirectRun, Named, MarkOf, SureToSync;
    var more, now, part := known + Named(OpsOf(parts[..i])), DirectRun(objects, OpsOf(parts[..i])), parts[i];
    assert SurePart(more, now, part);
    forall k | 0 <= k < |part.ops| ensures Sure(part.batched, fewer, now, part.ops[..k], part.ops[k]) {
      assert Sure(part.batched, more, now, part.ops[..k], part.ops[k]);
    }
  }

  lemma {:induction false} DirectRunConcat(objects: map<Uuid, Bytes>, a: seq<Op>, b: seq<Op>)
    ensures DirectRun(objects, a + b) == DirectRun(DirectRun(objects, a), b)
    decreases |b|
  {
    if b == [] {
      assert a + b == a;
    } else {
      var n := |b| - 1;
      assert (a + b)[..|a + b| - 1] == a + b[..n];
      DirectRunConcat(objects, a, b[..n]);
    }
  }

  lemma {:induction false} NamedConcat(a: seq<Op>, b: seq<Op>)
    ensures Named(a + b) == Named(a) + Named(b)
    decreases |b|
  {
    if b == [] {
      assert a + b == a;
    } else {
      var n := |b| - 1;
      assert (a + b)[..|a + b| - 1] == a + b[..n];
      NamedConcat(a, b[..n]);
    }
  }

  /** What was read is what the same run on a plain store would have read. */
  ghost predicate SeenIs(seen: seq<Option<Bytes>>, objects: map<Uuid, Bytes>, ops: seq<Op>) {
    |seen| <= |ops| && forall k | 0 <= k < |seen| :: seen[k] == DirectRead(objects, ops, k)
  }

  lemma SeenConcat(seen: seq<Option<Bytes>>, more: seq<Option<Bytes>>, objects: map<Uuid, Bytes>, a: seq<Op>,
                   b: seq<Op>)
    requires SeenIs(seen, objects, a) && |seen| == |a| && SeenIs(more, DirectRun(objects, a), b)
    ensures SeenIs(seen + more, objects, a + b)
  {
    hide DirectRun;
    forall k | 0 <= k < |seen + more| ensures (seen + more)[k] == DirectRead(objects, a + b, k) {
      if k < |a| {
        assert (a + b)[..k] == a[..k];
      } else {
        assert (a + b)[..k] == a + b[..k - |a|];
        DirectRunConcat(objects, a, b[..k - |a|]);
        assert more[k - |a|] == DirectRead(DirectRun(objects, a), b, k - |a|);
      }
    }
  }

  lemma SeenPrefix(seen: seq<Option<Bytes>>, objects: map<Uuid, Bytes>, ops: seq<Op>, rest: seq<Op>)
    requires SeenIs(seen, objects, ops)
    ensures SeenIs(seen, objects, ops + rest)
  {
    hide DirectRun;
    forall k | 0 <= k < |seen| ensures seen[k] == DirectRead(objects, ops + rest, k) {
      assert (ops + rest)[..k] == ops[..k];
    }
  }

  lemma {:induction false} OpsOfPrefix(parts: seq<Part>, i: nat) returns (rest: seq<Op>)
    requires i <= |parts|
    ensures OpsOf(parts) == OpsOf(parts[..i]) + rest
    decreases |parts| - i
  {
    if i == |parts| {
      assert parts[..i] == parts;
      rest := [];
    } else {
      var more := OpsOfPrefix(parts, i + 1);
      assert parts[..i + 1][..i] == parts[..i];
      rest := parts[i].ops + more;
    }
  }

  /** A history that stops within its `i`-th part. */
  lemma HistoryStops(objects: map<Uuid, Bytes>, parts: seq<Part>, i: nat,
                     seen: seq<Option<Bytes>>, more: seq<Option<Bytes>>)
    requires i < |parts| && |seen| == |OpsOf(parts[..i])| && SeenIs(seen, objects, OpsOf(parts[..i]))
    requires SeenIs(more, DirectRun(objects, OpsOf(parts[..i])), parts[i].ops)
    ensures var all, ops := seen + more, parts[i].ops;
      && |more| <= |ops| && |all| <= |OpsOf(parts)| && SeenIs(all, objects, OpsOf(parts))
      && DirectRun(objects, OpsOf(parts)[..|all|]) == DirectRun(DirectRun(objects, OpsOf(parts[..i])), ops[..|more|])
      && (|more| < |ops| ==> |all| < |OpsOf(parts)| && OpsOf(parts)[|all|] == ops[|more|])
  {
    hide DirectRun;
    var a, b := OpsOf(parts[..i]), parts[i].ops;
    assert |more| <= |b|;
    hide SeenIs;
    var rest := OpsOfPrefix(parts, i + 1);
    assert parts[..i + 1][..i] == parts[..i];
    assert OpsOf(parts)[..|a| + |more|] == a + b[..|more|];
    DirectRunConcat(objects, a, b[..|more|]);
    SeenConcat(seen, more, objects, a, b);
    SeenPrefix(seen + more, objects, a + b, rest);
  }

  /** A history that gets through its `i`-th part. */
  lemma HistoryGoesOn(objects: map<Uuid, Bytes>, parts: seq<Part>, i: nat,
                      seen: seq<Option<Bytes>>, more: seq<Option<Bytes>>)
    requires i < |parts| && |seen| == |OpsOf(parts[..i])| && SeenIs(seen, objects, OpsOf(parts[..i]))
    requires |more| == |parts[i].ops| && SeenIs(more, DirectRun(objects, OpsOf(parts[..i])), parts[i].ops)
    ensures var a, b, c := OpsOf(parts[..i]), parts[i].ops, OpsOf(parts[..i + 1]);
      && |seen + more| == |c| && SeenIs(seen + more, objects, c) && Named(c) == Named(a) + Named(b)
      && DirectRun(objects, c) == DirectRun(DirectRun(objects, a), b)
  {
    hide DirectRun, Named, SeenIs;
    var a, b := OpsOf(parts[..i]), parts[i].ops;
    assert parts[..i + 1][..i] == parts[..i];
    NamedConcat(a, b);
    DirectRunConcat(objects, a, b);
    SeenConcat(seen, more, objects, a, b);
  }
}
