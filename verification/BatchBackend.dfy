/**
 The write-back layer itself: buffers are opened, read, written, deleted and synced.

 Every operation states what it does to the directory of objects (`Objects`), in and out
 of batch mode.  Where the code loses or resurrects an object, the contract gives the
 exact condition.  `now` is the clock value the call reads; it never runs backwards.
 */
module BatchBackend {
  import opened Prelude
  import opened BatchState

  class Backend {
    var batchMode: bool
    var metadata: Store
    var batch: Store
    var bufs: map<Uuid, Buf>
    var deleted: seq<Uuid>
    var clock: nat

    function S(): State
      reads this
    {
      State(batchMode, metadata, batch, bufs, deleted, clock)
    }

    ghost predicate Valid()
      reads this
    {
      Sound(S())
    }

    /** The handle that the current mode looks at. */
    predicate Handle(b: Buf)
      reads `batchMode
    {
      if batchMode && !b.syncing then b.batchHandle else b.fileHandle
    }

    predicate Locked(u: Uuid)
      reads `batchMode, `bufs
    {
      u in bufs && Handle(bufs[u])
    }

    predicate NoneOpen()
      reads this
    {
      AllClosed(S())
    }

    predicate Unused(u: Uuid)
      reads this
    {
      u !in metadata && u !in batch && u !in bufs && u !in deleted
    }

    constructor (metadata: Store, now: nat)
      requires forall u | u in metadata :: FileSound(Some(metadata[u]), now)
      ensures Valid() && NoneOpen() && !batchMode && deleted == [] && bufs == map[]
      ensures this.metadata == metadata && batch == map[] && clock == now
    {
      this.metadata, this.clock := metadata, now;
      batchMode, batch, bufs, deleted := false, map[], map[], [];
    }

    /** The slot of object `u`. */
    function T(u: Uuid): Slot
      reads this
    {
      At(S(), u)
    }

    // -------------------------------------------------------------- handles

    predicate InBatch(b: Buf)
      reads `batchMode
    {
      batchMode && !b.syncing
    }

    /** Opens the batch file behind `u`, copying it from the metadata store where that is needed. */
    method OpenBatch(u: Uuid, flags: Flags, now: nat) returns (ok: bool)
      requires u in bufs && InBatch(bufs[u])
      requires bufs[u].batchFileExists || bufs[u].created ==> u in batch
      modifies `batch, `bufs
      ensures OnlyAt(old(S()), S(), u)
      ensures ok <==> CanOpenBatch(old(T(u)), flags)
      ensures T(u) == if ok then OpenedInBatch(old(T(u)), flags, now) else old(T(u))
    {
      var b := bufs[u];
      if !flags.create && !b.created && !b.batchFileExists {
        if u !in metadata { return false; }
        batch := batch[u := File(metadata[u].content, now)];
        b := b.(batchFileExists := true, syncFileExists := true);
      }
      if u !in batch {
        if !flags.create { return false; }
        batch := batch[u := File([], now)];
      }
      b := b.(batchHandle := true, ioFlags := flags);
      if flags.create {
        b := b.(created := true, batchFileExists := true);
      }
      bufs := bufs[u := b];
      ok := true;
    }

    /** Opens the metadata file behind `u`. */
    method OpenMetadata(u: Uuid, flags: Flags, now: nat) returns (ok: bool)
      requires u in bufs && !InBatch(bufs[u])
      modifies `metadata, `bufs
      ensures OnlyAt(old(S()), S(), u)
      ensures ok <==> flags.create || old(T(u)).meta.Some?
      ensures T(u) == if ok then OpenedDirectly(old(T(u)), flags, now) else old(T(u))
    {
      if u !in metadata {
        if !flags.create { return false; }
        metadata := metadata[u := File([], now)];
      }
      bufs := bufs[u := bufs[u].(fileHandle := true, ioFlags := flags, syncFileExists := true)];
      ok := true;
    }

    method Open(u: Uuid, flags: Flags, now: nat) returns (ok: bool)
      requires u in bufs && !Handle(bufs[u])
      requires bufs[u].batchFileExists || bufs[u].created ==> u in batch
      modifies `metadata, `batch, `bufs
      ensures OnlyAt(old(S()), S(), u)
      ensures InBatch(old(bufs[u])) ==>
                && (ok <==> CanOpenBatch(old(T(u)), flags))
                && T(u) == if ok then OpenedInBatch(old(T(u)), flags, now) else old(T(u))
      ensures !InBatch(old(bufs[u])) ==>
                && (ok <==> flags.create || old(T(u)).meta.Some?)
                && T(u) == if ok then OpenedDirectly(old(T(u)), flags, now) else old(T(u))
    {
      if InBatch(bufs[u]) {
        ok := OpenBatch(u, flags, now);
      } else {
        ok := OpenMetadata(u, flags, now);
      }
    }

    /** Closes the handle of `u`, which also declares the buffer clean. */
    method Release(u: Uuid)
      requires u in bufs
      modifies `bufs
      ensures bufs == if Handle(old(bufs[u])) then old(bufs)[u := Closed(old(bufs[u]))] else old(bufs)
    {
      var b := bufs[u];
      if Handle(b) {
        bufs := bufs[u := Closed(b)];
      }
    }

    /** Finds or makes the buffer of `u` and opens its file. */
    method Acquire(u: Uuid, flags: Flags, now: nat) returns (ok: bool)
      requires !Locked(u)
      requires u in bufs ==> !bufs[u].syncing && (bufs[u].batchFileExists || bufs[u].created ==> u in batch)
      modifies `metadata, `batch, `bufs
      ensures OnlyAt(old(S()), S(), u)
      ensures ok <==> CanOpen(batchMode, WithBuf(old(T(u))), flags)
      ensures T(u) == if ok then Opened(batchMode, WithBuf(old(T(u))), flags, now) else WithBuf(old(T(u)))
    {
      if u !in bufs { bufs := bufs[u := FRESH_BUF]; }
      ghost var s := S();
      ok := Open(u, flags, now);
      OnlyAtTransitive(old(S()), s, S(), u);
    }

    /** Locks `u`.  Creation is for objects that do not exist yet. */
    method Lock(u: Uuid, flags: Flags, now: nat) returns (ok: bool)
      requires Valid() && clock <= now && 1 <= now
      requires u !in deleted && !Locked(u) && (flags.create ==> Unused(u))
      modifies `metadata, `batch, `bufs, `clock
      ensures Valid() && clock == now && OnlyAt(old(S()), S(), u)
      ensures flags.create || u in old(Objects(S())) ==> ok
      ensures ok <==> CanOpen(batchMode, WithBuf(old(T(u))), flags)
      ensures T(u) == if ok then Opened(batchMode, WithBuf(old(T(u))), flags, now) else WithBuf(old(T(u)))
      ensures ok ==> Locked(u) && bufs[u].ioFlags == flags
      ensures Objects(S()) == if flags.create && !batchMode then old(Objects(S()))[u := []] else old(Objects(S()))
    {
      hide SlotSound, Objects;
      ghost var t := WithBuf(T(u));
      assert SlotSound(batchMode, clock, T(u));
      ObjectIs(S(), u);
      if u !in bufs { FreshSound(batchMode, clock, T(u)); }
      SoundBuf(batchMode, clock, t);
      LaterSound(batchMode, clock, now, t);
      clock := now;
      ok := Acquire(u, flags, now);
      if ok { OpenedSound(batchMode, t, flags, old(clock), now); }
      SoundAt(old(S()), S(), u);
      assert T(u).buf.Some?;
      if flags.create && !batchMode { ObjectsOnlyAt(old(S()), S(), u); } else { ObjectsSame(old(S()), S(), u); }
    }

    /** Writes the file behind `u`, except that a plain object in batch mode stays in memory. */
    method WriteThrough(u: Uuid, c: Bytes, now: nat) returns (staysDirty: bool)
      requires u in bufs
      modifies `metadata, `batch
      ensures staysDirty <==> batchMode && !bufs[u].ioFlags.fnode
      ensures metadata == if batchMode then old(metadata) else old(metadata)[u := File(c, now)]
      ensures batch == if batchMode && bufs[u].ioFlags.fnode then old(batch)[u := File(c, now)] else old(batch)
    {
      staysDirty := false;
      if bufs[u].ioFlags.fnode {
        if batchMode { batch := batch[u := File(c, now)]; } else { metadata := metadata[u := File(c, now)]; }
      } else if batchMode {
        staysDirty := true;
      } else {
        metadata := metadata[u := File(c, now)];
      }
    }

    /** Marks the locked object `u` as written, closes it and keeps the content in its buffer. */
    method Mark(u: Uuid, c: Bytes, staysDirty: bool, now: nat)
      requires Locked(u)
      modifies `bufs
      ensures bufs == old(bufs)[u := Closed(old(bufs[u])).(content := Some(c), bufferTime := now, dirty := staysDirty,
                                                           modified := old(bufs[u]).modified || batchMode)]
    {
      var b := bufs[u];
      if batchMode { b := b.(modified := true); }
      b := Closed(b.(dirty := batchMode));
      bufs := bufs[u := b.(content := Some(c), bufferTime := now, dirty := staysDirty)];
    }

    method Store(u: Uuid, c: Bytes, now: nat)
      requires Locked(u) && !bufs[u].syncing
      modifies `metadata, `batch, `bufs
      ensures OnlyAt(old(S()), S(), u) && T(u) == PutSlot(batchMode, old(T(u)), c, now)
    {
      var staysDirty := WriteThrough(u, c, now);
      Mark(u, c, staysDirty, now);
    }

    /**
     Replaces the content of the locked object `u`.  In batch mode a plain object is only
     kept in memory, while a filenode goes to the batch file.
     */
    method Put(u: Uuid, c: Bytes, now: nat) returns (ok: bool)
      requires Valid() && clock <= now && 1 <= now
      modifies `metadata, `batch, `bufs, `clock
      ensures Valid() && clock == now && OnlyAt(old(S()), S(), u)
      ensures ok <==> old(Locked(u))
      ensures !ok ==> Objects(S()) == old(Objects(S()))
      ensures ok ==> u in bufs && !AnyOpen(T(u)) && Objects(S()) == old(Objects(S()))[u := c]
      ensures ok ==> T(u) == PutSlot(batchMode, old(T(u)), c, now)
    {
      hide SlotSound, Objects;
      assert SlotSound(batchMode, clock, T(u));
      clock := now;
      if u !in bufs || !Handle(bufs[u]) {
        LaterSound(batchMode, old(clock), now, T(u));
        SoundAt(old(S()), S(), u);
        ObjectsSame(old(S()), S(), u);
        return false;
      }
      SoundBuf(batchMode, old(clock), T(u));
      PutSound(batchMode, old(clock), now, T(u), c);
      Store(u, c, now);
      assert T(u).buf.Some?;
      SoundAt(old(S()), S(), u);
      ObjectsOnlyAt(old(S()), S(), u);
      ok := true;
    }

    /** Whether closing `u` now would drop what was put last. */
    predicate WouldLose(u: Uuid)
      reads this
    {
      Locked(u) && u in batch && bufs[u].dirty && Some(batch[u].content) != bufs[u].content
    }

    /** Unlocks `u` without a put.  A dirty buffer is forgotten: the object falls back to the batch copy. */
    method Unlock(u: Uuid)
      requires Valid()
      modifies `bufs
      ensures OnlyAt(old(S()), S(), u)
      ensures Objects(S()) == old(Objects(S())) <==> !old(WouldLose(u))
      ensures old(WouldLose(u)) ==> Objects(S()) == old(Objects(S()))[u := batch[u].content]
      ensures !old(WouldLose(u)) ==> Valid()
      ensures !Locked(u)
    {
      hide Objects;
      assert SlotSound(batchMode, clock, T(u));
      ObjectIs(S(), u);
      if u in bufs { Release(u); }
      ObjectIs(S(), u);
      ObjectsOnlyAt(old(S()), S(), u);
      if !old(WouldLose(u)) {
        SoundAt(old(S()), S(), u);
        ObjectsSame(old(S()), S(), u);
      }
    }

    /**
     Creates object `u`.  The identifier should be a new one: an object that was deleted in
     this session does not come back.
     */
    method New(u: Uuid, now: nat)
      requires Valid() && clock <= now && 1 <= now
      modifies `metadata, `batch, `bufs, `clock
      ensures OnlyAt(old(S()), S(), u) && clock == now
      ensures Objects(S()) == old(Objects(S()))[u := []] <==>
                if batchMode then u !in deleted && (u in old(batch) ==> old(batch)[u].content == [])
                else u in old(metadata) ==> old(metadata)[u].content == []
      ensures old(Unused(u)) ==> Valid() && !AnyOpen(T(u))
      ensures old(Unused(u)) && batchMode ==> Marked(T(u), Local(false))
    {
      hide Objects;
      assert SlotSound(batchMode, clock, T(u));
      clock := now;
      if batchMode {
        if u !in batch { batch := batch[u := File([], now)]; }
        bufs := bufs[u := FRESH_BUF.(created := true, modified := true, batchFileExists := true)];
      } else {
        if u !in metadata { metadata := metadata[u := File([], now)]; }
      }
      ObjectIs(S(), u);
      ObjectsOnlyAt(old(S()), S(), u);
      if old(Unused(u)) { SoundAt(old(S()), S(), u); }
    }

    /** Whether a delete of `u` will reach the metadata store. */
    predicate DelReaches(u: Uuid)
      reads this
    {
      !batchMode || u !in metadata || u in deleted || (u in bufs && bufs[u].syncFileExists)
    }

    /** Deletes `u`.  In batch mode a committed object survives unless it was opened before. */
    method Del(u: Uuid, now: nat) returns (ok: bool)
      requires Valid() && clock <= now && 1 <= now
      modifies `metadata, `batch, `bufs, `deleted, `clock
      ensures Valid() && clock == now && OnlyAt(old(S()), S(), u)
      ensures Objects(S()) == old(Objects(S())) - {u} <==> old(DelReaches(u))
      ensures !old(DelReaches(u)) ==> Objects(S()) == old(Objects(S()))[u := old(metadata)[u].content]
      ensures u !in bufs && if batchMode then u !in batch && metadata == old(metadata) else u !in metadata
      ensures deleted == old(deleted) + if batchMode && u in old(bufs) && old(bufs[u]).syncFileExists then [u] else []
      ensures ok <==> if batchMode then u in old(batch) else u in old(metadata)
      ensures T(u) == DeletedSlot(batchMode, old(T(u)))
    {
      hide Objects, SlotSound;
      ghost var t := T(u);
      assert SlotSound(batchMode, clock, t);
      DeletedSound(batchMode, clock, now, t);
      clock := now;
      if u in bufs && batchMode && bufs[u].syncFileExists {
        deleted := deleted + [u];
      }
      bufs := bufs - {u};
      if batchMode {
        ok := u in batch;
        batch := batch - {u};
      } else {
        ok := u in metadata;
        metadata := metadata - {u};
      }
      assert T(u) == DeletedSlot(batchMode, t) && OnlyAt(old(S()), S(), u);
      ObjectIs(S(), u);
      ObjectsOnlyAt(old(S()), S(), u);
      SoundAt(old(S()), S(), u);
    }

    /** Copies the open file of `u` into its buffer, and closes it on request. */
    method Fill(u: Uuid, close: bool, now: nat)
      requires u in bufs && if batchMode then u in batch else u in metadata
      modifies `bufs
      ensures OnlyAt(old(S()), S(), u)
      ensures var t := if close then old(T(u)).(buf := Some(Closed(old(bufs[u])))) else old(T(u));
              T(u) == Refreshed(t, Content(if batchMode then t.copy else t.meta), now)
    {
      var c := if batchMode then batch[u].content else metadata[u].content;
      var b := bufs[u].(content := Some(c), bufferTime := now);
      bufs := bufs[u := if close then Closed(b) else b];
    }

    /** Reads the file of `u` into its buffer, opening it for that if it is not open. */
    method Load(u: Uuid, flags: Flags, now: nat)
      requires u in bufs && CanOpen(batchMode, T(u), flags)
      requires !bufs[u].syncing && (bufs[u].batchFileExists || bufs[u].created ==> u in batch)
      requires Handle(bufs[u]) ==> if batchMode then u in batch else u in metadata
      modifies `metadata, `batch, `bufs
      ensures OnlyAt(old(S()), S(), u) && T(u) == LoadedSlot(batchMode, old(T(u)), flags, now)
    {
      if Handle(bufs[u]) {
        Fill(u, false, now);
      } else {
        var ok := Open(u, flags, now);
        ghost var s := S();
        assert T(u).buf.Some? && if batchMode then T(u).copy.Some? else T(u).meta.Some?;
        Fill(u, true, now);
        OnlyAtTransitive(old(S()), s, S(), u);
      }
    }

    /** Fills the buffer of `u` from its file unless it is dirty or not older than the file. */
    method Read(u: Uuid, flags: Flags, stat: File, now: nat)
      requires CanOpen(batchMode, WithBuf(T(u)), flags) && !flags.create
      requires u in bufs ==> !bufs[u].syncing && (bufs[u].batchFileExists || bufs[u].created ==> u in batch)
      requires u in bufs && HandleOpen(batchMode, bufs[u]) ==> if batchMode then u in batch else u in metadata
      modifies `metadata, `batch, `bufs
      ensures OnlyAt(old(S()), S(), u) && T(u) == ReadSlot(batchMode, old(T(u)), flags, stat, now)
    {
      if u !in bufs {
        bufs := bufs[u := FRESH_BUF];
      } else if bufs[u].dirty || stat.mtime <= bufs[u].bufferTime {
        return;
      }
      if stat.content == [] {
        bufs := bufs[u := bufs[u].(content := Some([]), bufferTime := now)];
        return;
      }
      ghost var s := S();
      Load(u, flags, now);
      OnlyAtTransitive(old(S()), s, S(), u);
    }

    /** The read half of `Get`: `stat` was taken before the object was locked. */
    method Fetch(u: Uuid, flags: Flags, stat: File, now: nat)
      requires Valid() && clock == now && 1 <= now && !flags.create && u !in deleted
      requires Current(batchMode, T(u)).Some? && stat.content == Current(batchMode, T(u)).value.content
      requires 1 <= stat.mtime
      requires stat == Current(batchMode, T(u)).value || (u in bufs && Content(T(u).copy) == Content(T(u).meta))
      modifies `metadata, `batch, `bufs
      ensures Valid() && OnlyAt(old(S()), S(), u) && Objects(S()) == old(Objects(S()))
      ensures u in bufs && (u in old(Objects(S())) ==> bufs[u].content == Some(old(Objects(S()))[u]))
      ensures Locked(u) == old(Locked(u)) && (Locked(u) ==> bufs[u].ioFlags == old(bufs[u].ioFlags))
      ensures AnyOpen(T(u)) ==> old(AnyOpen(T(u)))
      ensures FlagsKept(WithBuf(old(T(u))).buf.value, bufs[u]) && T(u).meta == old(T(u)).meta
    {
      hide SlotSound, Objects, FlagsKept;
      assert SlotSound(batchMode, clock, T(u));
      ObjectIs(S(), u);
      ReadSound(batchMode, now, now, T(u), flags, stat);
      if u in bufs { SoundBuf(batchMode, now, T(u)); }
      Read(u, flags, stat, now);
      SoundAt(old(S()), S(), u);
      ObjectsSame(old(S()), S(), u);
      assert T(u).buf.Some?;
      if u in bufs { SoundBuf(batchMode, now, T(u)); }
    }

    /** Hands out the buffer of `u`, after locking it if it is to be written. */
    method Get(u: Uuid, flags: Flags, now: nat) returns (r: Option<Bytes>)
      requires Valid() && clock <= now && 1 <= now && u !in deleted
      requires !flags.create && (flags.read || flags.write || flags.crypto)
      requires flags.write || flags.crypto ==> !Locked(u)
      modifies `metadata, `batch, `bufs, `clock
      ensures Valid() && clock == now && OnlyAt(old(S()), S(), u) && Objects(S()) == old(Objects(S()))
      ensures flags.read && u in old(Objects(S())) ==> r == Some(old(Objects(S()))[u])
      ensures u !in old(bufs) && u !in old(Objects(S())) ==> r.None?
      ensures if flags.write || flags.crypto
              then u in old(Objects(S())) ==> Locked(u) && bufs[u].ioFlags == flags
              else Locked(u) == old(Locked(u)) && (AnyOpen(T(u)) ==> old(AnyOpen(T(u))))
      ensures FlagsKept(WithBuf(old(T(u))).buf.value, WithBuf(T(u)).buf.value) && T(u).meta == old(T(u)).meta
      ensures u in old(bufs) ==> u in bufs
    {
      hide SlotSound, Objects, FlagsKept;
      assert SlotSound(batchMode, clock, T(u));
      ObjectIs(S(), u);
      StatFinds(batchMode, clock, T(u));
      FlagsSame(WithBuf(T(u)).buf.value);
      clock := now;
      LaterSound(batchMode, old(clock), now, T(u));
      SoundAt(old(S()), S(), u);
      ObjectsSame(old(S()), S(), u);
      var stat := if batchMode && u in bufs && bufs[u].batchFileExists then Find(batch, u) else Find(metadata, u);
      if stat.None? { return None; }
      ghost var s := S();
      if flags.write || flags.crypto {
        assert SlotSound(batchMode, now, WithBuf(T(u))) by { if u !in bufs { FreshSound(batchMode, now, T(u)); } }
        OpenedShowsSame(batchMode, now, WithBuf(T(u)), flags, now);
        OpenedKeepsFlags(batchMode, WithBuf(T(u)), flags, now);
        var ok := Lock(u, flags, now);
        OnlyAtTransitive(old(S()), s, S(), u);
      }
      ghost var s' := S();
      if flags.read {
        Fetch(u, flags, stat.value, now);
        OnlyAtTransitive(old(S()), s', S(), u);
        FlagsKeptAgain(WithBuf(At(s, u)).buf.value, WithBuf(At(s', u)).buf.value, bufs[u]);
      }
      r := if u in bufs then bufs[u].content else None;
    }

    // -------------------------------------------------------------- syncing

    /** Writes one modified object to the metadata store: from memory if dirty, else from its batch file. */
    method SyncOne(u: Uuid, now: nat)
      requires batchMode && u in bufs && Due(T(u)).Some? && 1 <= now
      requires !bufs[u].syncing && !bufs[u].fileHandle && !bufs[u].batchHandle
      requires bufs[u].batchFileExists || bufs[u].created ==> u in batch
      requires bufs[u].modified && (bufs[u].dirty ==> bufs[u].created || u in metadata)
      modifies `metadata, `batch, `bufs
      ensures OnlyAt(old(S()), S(), u) && T(u) == SyncedSlot(old(T(u)), now)
    {
      var b := bufs[u];
      bufs := bufs[u := b.(syncing := true)];
      ghost var s := S();
      if b.dirty {
        var ok := Open(u, NO_FLAGS.(write := true, create := b.created), now);
        assert T(u).buf.Some?;
        metadata := metadata[u := File(b.content.value, now)];
        bufs := bufs[u := bufs[u].(dirty := false)];
        Release(u);
      } else {
        metadata := metadata[u := File(batch[u].content, now)];
      }
      bufs := bufs[u := bufs[u].(syncing := false, created := false, batchFileExists := false, modified := false)];
      forall v | v != u ensures At(S(), v) == At(old(S()), v) {
        assert At(s, v) == At(old(S()), v);
      }
    }

    /** Deletes the listed objects from the metadata store. */
    method SyncDeleted()
      modifies `metadata, `deleted
      ensures deleted == [] && forall u :: T(u) == Swept(old(T(u)))
    {
      while deleted != []
        invariant forall u :: Swept(T(u)) == Swept(old(T(u)))
        decreases |deleted|
      {
        ghost var s := S();
        var u := deleted[0];
        metadata := metadata - {u};
        deleted := deleted[1..];
        assert s.deleted == [u] + deleted;
        forall v ensures Swept(T(v)) == Swept(At(s, v)) {}
      }
      forall u ensures T(u) == Swept(old(T(u))) { assert Swept(T(u)) == Swept(old(T(u))); }
    }

    method SyncBuffer(u: Uuid, now: nat)
      requires batchMode && u in bufs && SlotSound(true, clock, T(u)) && 1 <= now && !AnyOpen(T(u))
      modifies `metadata, `batch, `bufs
      ensures OnlyAt(old(S()), S(), u) && T(u) == SyncSlot(old(T(u)), now)
    {
      hide SlotSound;
      if bufs[u].modified {
        SoundBuf(true, clock, T(u));
        ModifiedIsDue(clock, T(u));
        SyncOne(u, now);
      }
    }

    /** Syncs every modified object. */
    method SyncBuffers(now: nat)
      requires Valid() && batchMode && 1 <= now && NoneOpen()
      modifies `metadata, `batch, `bufs
      ensures forall u :: T(u) == SyncSlot(old(T(u)), now)
    {
      hide SlotSound, SyncSlot;
      var todo := bufs.Keys;
      forall u | u !in todo ensures T(u) == SyncSlot(T(u), now) { SyncSlotNothing(T(u), now); }
      while todo != {}
        invariant todo <= bufs.Keys && todo <= old(bufs).Keys
        invariant forall u :: T(u) == if u in todo then old(T(u)) else SyncSlot(old(T(u)), now)
      {
        ghost var s := S();
        var u :| u in todo;
        todo := todo - {u};
        assert At(s, u) == old(T(u)) && SlotSound(true, clock, old(T(u)));
        SyncBuffer(u, now);
        forall v | v in todo ensures v in bufs { assert At(S(), v) == At(s, v); }
      }
    }

    /**
     Syncs every modified object and then the deletions.  With no buffer at all it returns
     at once, so that the deletions are not done either.
     */
    method Sync(now: nat)
      requires Valid() && batchMode && clock <= now && 1 <= now && NoneOpen()
      modifies `metadata, `batch, `bufs, `deleted, `clock
      ensures Valid() && NoneOpen() && clock == now && batchMode && Pending(S()) == old(Pending(S()))
      ensures forall u :: T(u) == CommitSlot(old(T(u)), now, old(bufs) != map[])
      ensures bufs.Keys == old(bufs).Keys && forall u | u in bufs :: !bufs[u].modified
      ensures if old(bufs) == map[] then metadata == old(metadata) && deleted == old(deleted) else deleted == []
    {
      hide SlotSound, Pending, SyncSlot, Swept;
      if bufs != map[] {
        SyncBuffers(now);
        ghost var s := S();
        SyncDeleted();
        forall u ensures T(u) == Swept(SyncSlot(old(T(u)), now)) { assert T(u) == Swept(At(s, u)); }
      }
      ghost var s := S();
      clock := now;
      ghost var was, after := old(S()), S();
      forall u ensures At(after, u) == CommitSlot(At(was, u), now, was.bufs != map[]) {
        assert At(s, u) == T(u) && At(was, u) == old(T(u));
      }
      CommitSound(was, after, now);
    }

    // -------------------------------------------------------------- sessions

    predicate NothingListed()
      reads this
    {
      forall u | u in deleted :: u !in metadata
    }

    /** Opens a session.  Deletions left over from an earlier session become visible. */
    method Start()
      requires Valid() && NoneOpen()
      modifies `batchMode
      ensures Valid() && NoneOpen() && batchMode
      ensures Objects(S()) == old(Objects(S())) <==> old(batchMode) || NothingListed()
    {
      if batchMode { return; }
      batchMode := true;
      forall u ensures SlotSound(batchMode, clock, At(S(), u)) {
        assert SlotSound(old(batchMode), clock, At(old(S()), u));
      }
      forall u | u in bufs ensures !bufs[u].modified {
        assert SlotSound(old(batchMode), clock, At(old(S()), u));
      }
      Settled(S());
    }

    /** Syncs without leaving batch mode. */
    method BatchCommit(now: nat)
      requires Valid() && NoneOpen() && clock <= now && 1 <= now
      modifies `metadata, `batch, `bufs, `deleted, `clock
      ensures Valid() && NoneOpen() && batchMode == old(batchMode) && Objects(S()) == old(Objects(S()))
      ensures batchMode ==> (Contents(metadata) == Objects(S()) <==> old(bufs) != map[] || old(NothingListed()))
      ensures batchMode ==> forall u :: T(u) == CommitSlot(old(T(u)), now, old(bufs) != map[])
      ensures batchMode && old(bufs) != map[] ==> deleted == []
      ensures old(bufs) == map[] ==> metadata == old(metadata) && deleted == old(deleted)
      ensures !batchMode ==> S() == old(S())
      ensures clock == if batchMode then now else old(clock)
    {
      hide CommitSlot;
      if batchMode {
        Sync(now);
        Settled(S());
      }
    }

    /** Syncs and leaves batch mode. */
    method Finish(now: nat)
      requires Valid() && NoneOpen() && clock <= now && 1 <= now
      modifies this
      ensures Valid() && NoneOpen() && !batchMode
      ensures Contents(metadata) == old(Objects(S())) <==> !old(batchMode) || old(bufs) != map[] || old(NothingListed())
      ensures old(batchMode) ==>
                if old(bufs) == map[] then metadata == old(metadata) && deleted == old(deleted) else deleted == []
      ensures clock <= now && (old(batchMode) ==> forall u :: T(u) == CommitSlot(old(T(u)), now, old(bufs) != map[]))
    {
      hide CommitSlot, Sound, AllClosed, Contents, Pending;
      if batchMode {
        Sync(now);
        Settled(S());
        ghost var s := S();
        batchMode := false;
        LeaveSound(s, S());
      }
    }

    // -------------------------------------------------------------- whole sessions

    predicate CanSync()
      reads this
    {
      bufs != map[] || NothingListed()
    }

    /** The operation has its documented effect in the current state. */
    predicate Legal(op: Op)
      reads this
    {
      match op
      case New(u) => Unused(u)
      case Put(u, create, _, _) => if create then Unused(u) else u in Objects(S())
      case Get(u) => u in Objects(S())
      case Del(u) => u in Objects(S()) && DelReaches(u)
      case Commit => true
    }

    /** Outside batch mode no listed object may be stored: the next session would hide it. */
    predicate Ready()
      reads this
    {
      NoneOpen() && (!batchMode ==> NothingListed())
    }

    method PerformPut(u: Uuid, create: bool, fnode: bool, c: Bytes, now: nat)
      requires Valid() && Ready() && clock <= now && 1 <= now && Legal(Op.Put(u, create, fnode, c))
      modifies `metadata, `batch, `bufs, `clock
      ensures Valid() && Ready() && clock == now && OnlyAt(old(S()), S(), u)
      ensures Objects(S()) == old(Objects(S()))[u := c]
      ensures old(NothingListed()) ==> NothingListed()
      ensures batchMode ==> MarksFollow(old(S()), S(), Op.Put(u, create, fnode, c))
    {
      hide Objects, SlotSound, Marked;
      ghost var t := T(u);
      assert SlotSound(batchMode, clock, t);
      ObjectIs(S(), u);
      assert u !in deleted;
      assert !AnyOpen(t);
      if batchMode {
        forall m | Marked(t, m) { PutMarked(clock, now, t, m, create, fnode, c); }
      }
      var ok := Lock(u, NO_FLAGS.(write := true, create := create, fnode := fnode), now);
      ghost var s := S();
      ok := Put(u, c, now);
      OnlyAtTransitive(old(S()), s, S(), u);
      StillClosed(old(S()), S(), u);
      if batchMode { MarksOne(old(S()), S(), u, Op.Put(u, create, fnode, c)); }
      forall v | v in deleted && old(NothingListed()) ensures v !in metadata { assert At(S(), v) == At(old(S()), v); }
    }

    method PerformNew(u: Uuid, now: nat)
      requires Valid() && Ready() && clock <= now && 1 <= now && Unused(u)
      modifies `metadata, `batch, `bufs, `clock
      ensures Valid() && Ready() && clock == now && OnlyAt(old(S()), S(), u)
      ensures Objects(S()) == old(Objects(S()))[u := []]
      ensures old(NothingListed()) ==> NothingListed()
      ensures batchMode ==> MarksFollow(old(S()), S(), Op.New(u))
    {
      hide Objects, Marked;
      New(u, now);
      StillClosed(old(S()), S(), u);
      if batchMode { MarksOne(old(S()), S(), u, Op.New(u)); }
      forall v | v in deleted && old(NothingListed()) ensures v !in metadata { assert At(S(), v) == At(old(S()), v); }
    }

    method PerformGet(u: Uuid, now: nat) returns (r: Option<Bytes>)
      requires Valid() && Ready() && clock <= now && 1 <= now && u in Objects(S())
      modifies `metadata, `batch, `bufs, `clock
      ensures Valid() && Ready() && clock == now && OnlyAt(old(S()), S(), u)
      ensures Objects(S()) == old(Objects(S())) && r == Find(Objects(S()), u)
      ensures old(NothingListed()) ==> NothingListed()
      ensures batchMode ==> MarksFollow(old(S()), S(), Op.Get(u))
    {
      hide Objects, Marked;
      ObjectIs(S(), u);
      assert u !in deleted;
      assert !AnyOpen(T(u));
      r := Get(u, NO_FLAGS.(read := true), now);
      StillClosed(old(S()), S(), u);
      if batchMode {
        forall m | Marked(old(T(u)), m) ensures Marked(T(u), m) { KeptMarked(old(T(u)), T(u), m); }
        MarksOne(old(S()), S(), u, Op.Get(u));
      }
      forall v | v in deleted && old(NothingListed()) ensures v !in metadata { assert At(S(), v) == At(old(S()), v); }
    }

    method PerformDel(u: Uuid, now: nat)
      requires Valid() && Ready() && clock <= now && 1 <= now && DelReaches(u)
      modifies `metadata, `batch, `bufs, `deleted, `clock
      ensures Valid() && Ready() && clock == now && OnlyAt(old(S()), S(), u)
      ensures Objects(S()) == old(Objects(S())) - {u}
      ensures MarksFollow(old(S()), S(), Op.Del(u))
    {
      hide Objects;
      var ok := Del(u, now);
      StillClosed(old(S()), S(), u);
      assert T(u).buf.None?;
      MarksOne(old(S()), S(), u, Op.Del(u));
      if !batchMode {
        forall v | v in deleted ensures v !in metadata { assert At(S(), v) == At(old(S()), v) || v == u; }
      }
    }

    method PerformCommit(now: nat)
      requires Valid() && Ready() && clock <= now && 1 <= now
      modifies `metadata, `batch, `bufs, `deleted, `clock
      ensures Valid() && Ready() && clock <= now && batchMode == old(batchMode)
      ensures Objects(S()) == old(Objects(S())) && Known(S()) <= old(Known(S()))
      ensures old(NothingListed()) ==> NothingListed()
      ensures batchMode ==> MarksFollow(old(S()), S(), Commit)
    {
      hide Objects, Marked, CommitSlot, SlotSound;
      BatchCommit(now);
      if batchMode {
        forall u ensures At(S(), u) == CommitSlot(At(old(S()), u), now, old(bufs) != map[]) {
          assert T(u) == CommitSlot(old(T(u)), now, old(bufs) != map[]);
        }
        MarksCommit(old(S()), S(), now);
        KnownCommit(old(S()), S(), now, old(bufs) != map[]);
      }
    }

    /** Every legal operation means what it would on a plain store, in and out of batch mode. */
    method Perform(op: Op, now: nat) returns (r: Option<Bytes>)
      requires Valid() && Ready() && clock <= now && 1 <= now && Legal(op)
      modifies `metadata, `batch, `bufs, `deleted, `clock
      ensures Valid() && Ready() && clock <= now
      ensures Objects(S()) == Direct(old(Objects(S())), op)
      ensures r == if op.Get? then Find(old(Objects(S())), op.uuid) else None
      ensures Known(S()) <= old(Known(S())) + NamedBy(op)
      ensures !op.Del? && old(NothingListed()) ==> NothingListed()
      ensures batchMode ==> MarksFollow(old(S()), S(), op)
    {
      hide Objects, MarksFollow, Known, Sound, AllClosed;
      r := None;
      match op {
        case New(u) => PerformNew(u, now);
        case Put(u, create, fnode, c) => PerformPut(u, create, fnode, c, now);
        case Get(u) => r := PerformGet(u, now);
        case Del(u) => PerformDel(u, now);
        case Commit => PerformCommit(now);
      }
      if !op.Commit? { KnownOnlyAt(old(S()), S(), op.uuid); }
    }

    /** A run that is sure to succeed is legal at every step. */
    lemma SureIsLegal(known: set<Uuid>, objects: map<Uuid, Bytes>, ops: seq<Op>, op: Op)
      requires Sure(batchMode, known, objects, ops, op)
      requires Objects(S()) == DirectRun(objects, ops) && Known(S()) <= known + Named(ops)
      requires batchMode ==> forall u :: Marked(T(u), MarkOf(ops, u))
      ensures Legal(op)
    {
      hide Objects, DirectRun, Named;
      match op
      case Del(u) => if batchMode { assert Marked(T(u), MarkOf(ops, u)); }
      case _ =>
    }

    /** The first `n` of the operations have been done, from `objects` and the identifiers `known`. */
    ghost predicate RanTo(known: set<Uuid>, objects: map<Uuid, Bytes>, ops: seq<Op>, n: nat)
      requires n <= |ops|
      reads this
    {
      && Valid() && Ready() && Objects(S()) == DirectRun(objects, ops[..n]) && Known(S()) <= known + Named(ops[..n])
      && (batchMode ==> forall u :: Marked(T(u), MarkOf(ops[..n], u)))
    }

    method PerformNext(ghost known: set<Uuid>, ghost objects: map<Uuid, Bytes>, ops: seq<Op>, n: nat, now: nat)
      returns (r: Option<Bytes>)
      requires n < |ops| && RanTo(known, objects, ops, n) && clock <= now && 1 <= now && Legal(ops[n])
      modifies `metadata, `batch, `bufs, `deleted, `clock
      ensures RanTo(known, objects, ops, n + 1) && clock <= now && r == DirectRead(objects, ops, n)
      ensures old(NothingListed()) && !ops[n].Del? ==> NothingListed()
    {
      hide Objects, Known, Sound, AllClosed, Marked, Legal, NextMark, Direct;
      ghost var s := S();
      r := Perform(ops[n], now);
      assert ops[..n + 1][..n] == ops[..n];
      forall u | batchMode ensures Marked(T(u), MarkOf(ops[..n + 1], u)) {
        assert Marked(At(s, u), MarkOf(ops[..n], u));
      }
    }

    /**
     A run of operations, in or out of batch mode.  It refines the same run on a plain store, as far as every
     operation is legal when its turn comes; otherwise it stops in front of it.
     */
    method RunOps(ops: seq<Op>, times: nat -> nat, from: nat) returns (seen: seq<Option<Bytes>>)
      requires Valid() && Ready() && (batchMode ==> forall u :: Marked(T(u), Foreign))
      requires Ticking(times) && clock <= times(from) && 1 <= times(from)
      modifies `metadata, `batch, `bufs, `deleted, `clock
      ensures Valid() && Ready() && SeenIs(seen, old(Objects(S())), ops) && clock <= times(from + |ops|)
      ensures Objects(S()) == DirectRun(old(Objects(S())), ops[..|seen|])
      ensures |seen| < |ops| ==> !Legal(ops[|seen|])
      ensures old(AllSure(batchMode, Known(S()), Objects(S()), ops)) ==> |seen| == |ops|
      ensures Known(S()) <= old(Known(S())) + Named(ops[..|seen|])
      ensures batchMode ==> forall u :: Marked(T(u), MarkOf(ops[..|seen|], u))
      ensures old(NothingListed()) && (forall op | op in ops :: !op.Del?) ==> NothingListed()
    {
      hide Objects, Known, Sound, AllClosed, Marked, Legal, DirectRead, NothingListed, Sure;
      ghost var known, objects := Known(S()), Objects(S());
      seen := [];
      assert ops[..0] == [] && RanTo(known, objects, ops, 0);
      hide RanTo, Ready;
      while |seen| < |ops|
        invariant SeenIs(seen, objects, ops) && RanTo(known, objects, ops, |seen|) && clock <= times(from + |seen|)
        invariant old(NothingListed()) && (forall op | op in ops :: !op.Del?) ==> NothingListed()
      {
        var k := |seen|;
        if AllSure(batchMode, known, objects, ops) { RanIs(known, objects, ops, k); }
        Later(times, from, k);
        Later(times, from, |ops|);
        if !Legal(ops[k]) { RanIs(known, objects, ops, k); return; }
        var r := PerformNext(known, objects, ops, k, times(from + k));
        seen := seen + [r];
      }
      RanIs(known, objects, ops, |ops|);
    }

    lemma RanIs(known: set<Uuid>, objects: map<Uuid, Bytes>, ops: seq<Op>, n: nat)
      requires n <= |ops| && RanTo(known, objects, ops, n)
      ensures Valid() && Ready() && Objects(S()) == DirectRun(objects, ops[..n])
      ensures Known(S()) <= known + Named(ops[..n]) && (batchMode ==> forall u :: Marked(T(u), MarkOf(ops[..n], u)))
      ensures n < |ops| && AllSure(batchMode, known, objects, ops) ==> Legal(ops[n])
    {
      hide Objects, Known, Sound, AllClosed, Marked, Legal, Sure, Ready, DirectRun, Named, MarkOf;
      if n < |ops| && AllSure(batchMode, known, objects, ops) { SureIsLegal(known, objects, ops[..n], ops[n]); }
    }

    lemma SureCanSync(ops: seq<Op>)
      requires SureToSync(ops) && ((forall op | op in ops :: !op.Del?) ==> NothingListed())
      requires forall u :: Marked(T(u), MarkOf(ops, u))
      ensures CanSync()
    {
      hide MarkOf;
      if u :| MarkOf(ops, u) != Foreign { assert Marked(T(u), MarkOf(ops, u)); }
    }

    /** A whole session: start, `ops`, finish.  It is sure to succeed where the run alone shows that it will. */
    method RunSession(ops: seq<Op>, times: nat -> nat, from: nat) returns (ok: bool, seen: seq<Option<Bytes>>)
      requires Valid() && Ready() && !batchMode && Ticking(times) && clock <= times(from) && 1 <= times(from)
      modifies this
      ensures Valid() && Ready() && SeenIs(seen, old(Contents(metadata)), ops) && clock <= times(from + |ops|)
      ensures ok ==> |seen| == |ops| && !batchMode && Contents(metadata) == DirectRun(old(Contents(metadata)), ops)
      ensures !ok ==> batchMode && Objects(S()) == DirectRun(old(Contents(metadata)), ops[..|seen|])
      ensures !ok ==> if |seen| == |ops| then !CanSync() else !Legal(ops[|seen|])
      ensures AllSure(true, old(Known(S())), old(Contents(metadata)), ops) && SureToSync(ops) ==> ok
      ensures Known(S()) <= old(Known(S())) + Named(ops)
    {
      hide Objects, Contents, Known, Marked, AllSure, DirectRun, Legal, MarkOf, Named, AllClosed, CommitSlot, Direct,
        DirectRead;
      assert Objects(S()) == Contents(metadata) by { ObjectsDirect(S()); }
      assert forall u :: Marked(T(u), Foreign) by { NothingMarked(S()); }
      Start();
      assert forall u :: Marked(T(u), Foreign) by { NothingMarked(old(S())); SameSlots(old(S()), S()); }
      assert Known(S()) == old(Known(S())) by { SameSlots(old(S()), S()); }
      seen := RunOps(ops, times, from);
      NamedPrefix(ops, |seen|);
      if |seen| < |ops| { return false, seen; }
      assert ops[..|seen|] == ops;
      if SureToSync(ops) { SureCanSync(ops); }
      if !CanSync() { return false, seen; }
      ghost var s, now := S(), times(from + |ops|);
      label Done:
      Finish(times(from + |ops|));
      forall u ensures At(S(), u) == CommitSlot(At(s, u), now, s.bufs != map[]) {
        assert T(u) == CommitSlot(old@Done(T(u)), now, s.bufs != map[]);
      }
      KnownCommit(s, S(), now, s.bufs != map[]);
      ok := true;
    }

    /** One part of a history: a session, or operations outside any session. */
    method RunPart(part: Part, times: nat -> nat, from: nat) returns (ok: bool, seen: seq<Option<Bytes>>)
      requires Valid() && Ready() && !batchMode && Ticking(times) && clock <= times(from) && 1 <= times(from)
      modifies this
      ensures Valid() && Ready() && SeenIs(seen, old(Contents(metadata)), part.ops) && clock <= times(from + |part.ops|)
      ensures ok ==> |seen| == |part.ops| && !batchMode
      ensures ok ==> Contents(metadata) == DirectRun(old(Contents(metadata)), part.ops)
      ensures !ok ==> Objects(S()) == DirectRun(old(Contents(metadata)), part.ops[..|seen|])
      ensures !ok ==> if |seen| == |part.ops| then !CanSync() else !Legal(part.ops[|seen|])
      ensures SurePart(old(Known(S())), old(Contents(metadata)), part) ==> ok
      ensures Known(S()) <= old(Known(S())) + Named(part.ops)
    {
      hide Objects, Contents, Known, Marked, AllSure, DirectRun, Legal, MarkOf, Named, AllClosed, DirectRead,
        SureToSync;
      if part.batched {
        ok, seen := RunSession(part.ops, times, from);
      } else {
        ObjectsDirect(S());
        seen := RunOps(part.ops, times, from);
        ObjectsDirect(S());
        NamedPrefix(part.ops, |seen|);
        ok := |seen| == |part.ops|;
        if ok { assert part.ops[..|seen|] == part.ops; }
      }
    }

    /**
     Any history of sessions and of operations between them.  It refines the same run on a plain store, and stops
     only in front of an illegal operation or at the end of a session whose deletions would be lost.  It does not
     stop where the history alone shows it will not.
     */
    method RunHistory(parts: seq<Part>, times: nat -> nat) returns (ok: bool, seen: seq<Option<Bytes>>)
      requires Valid() && Ready() && !batchMode && Ticking(times) && clock <= times(0) && 1 <= times(0)
      modifies this
      ensures Valid() && Ready() && SeenIs(seen, old(Contents(metadata)), OpsOf(parts))
      ensures ok ==> |seen| == |OpsOf(parts)| && !batchMode
      ensures ok ==> Contents(metadata) == DirectRun(old(Contents(metadata)), OpsOf(parts))
      ensures !ok ==> Objects(S()) == DirectRun(old(Contents(metadata)), OpsOf(parts)[..|seen|])
      ensures !ok ==> !CanSync() || (|seen| < |OpsOf(parts)| && !Legal(OpsOf(parts)[|seen|]))
      ensures SureHistory(old(Known(S())), old(Contents(metadata)), parts) ==> ok
    {
      hide Objects, Contents, Known, Legal, AllClosed, SurePart, Sound, Direct, DirectRead;
      ghost var known, objects := Known(S()), Contents(metadata);
      ok, seen := true, [];
      var from: nat := 0;
      assert parts[..0] == [] && SeenIs([], objects, OpsOf([])) && DirectRun(objects, OpsOf([])) == objects;
      hide DirectRun, Named, SeenIs, OpsOf;
      for i := 0 to |parts|
        invariant Valid() && Ready() && !batchMode && clock <= times(from) && 1 <= times(from)
        invariant |seen| == |OpsOf(parts[..i])| && SeenIs(seen, objects, OpsOf(parts[..i]))
        invariant Contents(metadata) == DirectRun(objects, OpsOf(parts[..i]))
        invariant Known(S()) <= known + Named(OpsOf(parts[..i]))
      {
        if SureHistory(known, objects, parts) { SureNext(known, Known(S()), objects, parts, i); }
        Later(times, from, |parts[i].ops|);
        var more;
        ok, more := RunPart(parts[i], times, from);
        HistoryStops(objects, parts, i, seen, more);
        if !ok { return false, seen + more; }
        HistoryGoesOn(objects, parts, i, seen, more);
        seen := seen + more;
        from := from + |parts[i].ops|;
      }
      ok := true;
      assert parts[..|parts|] == parts;
    }
  }

  ghost predicate Ticking(times: nat -> nat) {
    forall i: nat, j: nat | i <= j :: times(i) <= times(j)
  }

  lemma Later(times: nat -> nat, i: nat, n: nat)
    requires Ticking(times)
    ensures times(i) <= times(i + n)
  {
  }

  /**
   The deletion of the only buffered object is lost: the sync finds no buffer, returns early,
   and the session ends with the object still in the metadata store.
   */
  method LoneDeletionIsLost(u: Uuid, f: File, c: Bytes, now: nat) returns (b: Backend)
    requires 1 <= f.mtime <= now
    ensures u in b.metadata && b.deleted == [u] && !b.batchMode
  {
    hide Objects, Sound, OnlyAt;
    b := new Backend(map[u := f], now);
    b.Start();
    ghost var s := b.S();
    assert !AnyOpen(b.T(u));
    var ok := b.Lock(u, NO_FLAGS.(write := true), now);
    ghost var s1 := b.S();
    assert b.T(u).buf.value.syncFileExists;
    ok := b.Put(u, c, now);
    ghost var s2 := b.S();
    OnlyAtTransitive(s, s1, s2, u);
    ok := b.Del(u, now);
    OnlyAtTransitive(s, s2, b.S(), u);
    assert b.bufs == map[] by { NoOtherBufs(s, b.S(), u); }
    StillClosed(s, b.S(), u);
    b.Finish(now);
  }

  /** A session on two new names: what was written is read after a commit, and what was deleted is gone at the end. */
  method SessionKeepsLast(b: Backend, u: Uuid, c: Bytes, v: Uuid, d: Bytes, times: nat -> nat)
    returns (ok: bool, seen: seq<Option<Bytes>>)
    requires b.Valid() && b.Ready() && !b.batchMode && Ticking(times) && b.clock <= times(0) && 1 <= times(0)
    requires u != v && u !in Known(b.S()) && v !in Known(b.S())
    modifies b
    ensures ok && b.Valid() && !b.batchMode && Contents(b.metadata) == old(Contents(b.metadata))[v := d]
    ensures |seen| == 7 && seen[5] == Some(c)
  {
    hide Known, Contents, AllSure, SureToSync, DirectRun, SeenIs, Find, Sound, MakeAndDrop, Objects, AllClosed, Named;
    MakeAndDropWorks(b.S(), u, c, v, d);
    ok, seen := b.RunSession(MakeAndDrop(u, c, v, d), times, 0);
    SeenFifth(seen, old(Contents(b.metadata)), MakeAndDrop(u, c, v, d));
  }

  lemma MakeAndDropWorks(s: State, u: Uuid, c: Bytes, v: Uuid, d: Bytes)
    requires u != v && u !in Known(s) && v !in Known(s)
    ensures var ops, objects := MakeAndDrop(u, c, v, d), Contents(s.metadata);
      && |ops| == 7 && ops[5] == Get(u)
      && AllSure(true, Known(s), objects, ops) && SureToSync(ops)
      && DirectRun(objects, ops) == objects[v := d] && Find(DirectRun(objects, ops[..5]), u) == Some(c)
  {
    hide DirectRun, Named, MarkOf, AllSure, SureToSync;
    MakeAndDropIsSure(Known(s), Contents(s.metadata), u, c, v, d);
    MakeAndDropRuns(Contents(s.metadata), u, c, v, d);
  }

  lemma SeenFifth(seen: seq<Option<Bytes>>, objects: map<Uuid, Bytes>, ops: seq<Op>)
    requires SeenIs(seen, objects, ops) && |seen| == |ops| && 5 < |ops| && ops[5].Get?
    ensures seen[5] == Find(DirectRun(objects, ops[..5]), ops[5].uuid)
  {
  }

  /** A put that succeeded is dropped by locking its object again and unlocking it. */
  method UnlockDropsPut(u: Uuid, f: File, c: Bytes, now: nat)
    returns (put: map<Uuid, Bytes>, left: map<Uuid, Bytes>)
    requires 1 <= f.mtime <= now && c != f.content
    ensures put == map[u := c] && left == map[u := f.content]
  {
    hide Objects, Sound, OnlyAt;
    var b := new Backend(map[u := f], now);
    assert Objects(b.S()) == map[u := f.content] by { ObjectsDirect(b.S()); }
    b.Start();
    assert !AnyOpen(b.T(u));
    var flags := NO_FLAGS.(write := true);
    var ok := b.Lock(u, flags, now);
    assert b.T(u).copy == Some(File(f.content, now));
    ok := b.Put(u, c, now);
    put := Objects(b.S());
    assert b.T(u).buf.value.dirty && b.T(u).copy == Some(File(f.content, now));
    ok := b.Lock(u, flags, now);
    assert b.T(u).buf.value.dirty && b.T(u).copy == Some(File(f.content, now));
    b.Unlock(u);
    left := Objects(b.S());
  }

  /** A session in which an object was made as a filenode and committed. */
  method CommittedFilenode(u: Uuid, c: Bytes, now: nat) returns (b: Backend)
    requires 1 <= now
    ensures fresh(b) && b.Valid() && b.NoneOpen() && b.batchMode && b.clock == now
    ensures Objects(b.S()) == map[u := c] && u in b.metadata && b.metadata[u] == File(c, now)
    ensures b.deleted == [] && u in b.batch && u in b.bufs && !b.bufs[u].syncFileExists
  {
    hide Objects, Sound, OnlyAt, Pending, AllClosed;
    b := new Backend(map[], now);
    assert Objects(b.S()) == map[] by { ObjectsDirect(b.S()); }
    hide Contents;
    b.Start();
    ghost var s := b.S();
    var ok := b.Lock(u, NO_FLAGS.(write := true, create := true, fnode := true), now);
    ghost var s1 := b.S();
    ok := b.Put(u, c, now);
    ghost var s2 := b.S();
    OnlyAtTransitive(s, s1, s2, u);
    StillClosed(s, s2, u);
    ghost var t := b.T(u);
    assert Due(t) == Some(c) && t.copy.Some? && !t.buf.value.syncFileExists && !t.deleted;
    b.BatchCommit(now);
    assert b.T(u) == SyncedSlot(t, now);
  }

  /**
   An object made as a filenode and committed is in the metadata store, yet its buffer does not say so: a delete
   of it succeeds and does not reach the store, not even when the session ends.
   */
  method FilenodeDeletionIsLost(u: Uuid, c: Bytes, now: nat) returns (b: Backend, deleted: bool)
    requires 1 <= now
    ensures deleted && !b.batchMode && Contents(b.metadata) == map[u := c]
  {
    hide Objects, Sound, OnlyAt, Contents, AllClosed;
    b := CommittedFilenode(u, c, now);
    ghost var s := b.S();
    deleted := b.Del(u, now);
    StillClosed(s, b.S(), u);
    b.Finish(now);
  }
}
