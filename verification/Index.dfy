/**
 * The index over the segments: put, get, delete and checkpoint, each one serialized step.
 * `disk.seen` holds every state of the files during the operation, that is, everything a
 * process crash inside it could leave behind.
 */
module Index {
  import opened Base
  import opened Offset
  import opened WalCodec
  import opened Files
  import opened Disk
  import opened Segment
  import opened Store
  import opened Wal
  import opened Manager
  import opened Allocation
  import Bitmap

  /** Recovery from `d` finds every slot it names, and rebuilds one of two states. */
  ghost predicate Atomic(d: Files, t: Table, v: map<Key, Value>, t': Table, v': map<Key, Value>) {
    Recoverable(d) &&
    ((RecoveredTable(d) == t && View(t, d) == v) || (RecoveredTable(d) == t' && View(t', d) == v'))
  }

  /** `d` differs from `f` in nothing that recovering `t` depends on. */
  ghost predicate Harmless(f: Files, d: Files, t: Table) {
    Formatted(d) && AllStored(t, d) && View(t, d) == View(t, f) && RecoveredTable(d) == RecoveredTable(f) &&
    d.wal == f.wal && d.snapshot == f.snapshot && d.keySize == f.keySize
  }

  /** The slot at `a` is free on disk. */
  ghost predicate SlotFree(f: Files, a: U64) {
    SegmentOf(a) in f.segs && !Bitmap.IsSet(f.segs[SegmentOf(a)].bitmap, SlotOf(a))
  }

  /**
   * What a put leaves when its record was written and could not be synced: recovery finds the
   * entry the put has undone, and unless freeing the new slot failed too, a free slot.
   */
  ghost predicate RecordLeft(t: Table, key: Key, mems: Mems, f: Files) {
    exists a :: RecoveredTable(f) == t[key := a] && (Live(mems, a) || !Recoverable(f))
  }

  /** The log of `d` is the log of `f` and one record more. */
  ghost predicate Logged(f: Files, d: Files, r: Record) {
    Replayed(d.keySize, d.wal) == Replayed(f.keySize, f.wal) + [r]
  }

  /** `d` differs from `f` in log and snapshot only, and recovers `r` or `r'`. */
  ghost predicate Logging(f: Files, d: Files, r: Table, r': Table) {
    d.segs == f.segs && d.keySize == f.keySize && (RecoveredTable(d) == r || RecoveredTable(d) == r')
  }

  /** `d` differs from `f` in log and snapshot only, and recovers a mix of three tables. */
  ghost predicate LoggingMix(f: Files, d: Files, a: Table, b: Table, c: Table) {
    d.segs == f.segs && d.keySize == f.keySize && Mixes(RecoveredTable(d), a, b, c)
  }

  class Index {
    const disk: Disk
    const mgr: SegmentManager
    const wal: WalWriter
    const valueSize: nat
    /** Log size that triggers a checkpoint; zero disables it. */
    const checkpointBytes: nat
    const hasSnapshotDir: bool
    var table: Table

    constructor (disk: Disk, mgr: SegmentManager, wal: WalWriter, valueSize: nat, checkpointBytes: nat,
                 hasSnapshotDir: bool)
      requires mgr.disk == disk && wal.disk == disk
      ensures this.disk == disk && this.mgr == mgr && this.wal == wal && this.valueSize == valueSize
      ensures this.checkpointBytes == checkpointBytes && this.hasSnapshotDir == hasSnapshotDir
      ensures table == map[] && Wired()
    {
      this.disk, this.mgr, this.wal := disk, mgr, wal;
      this.valueSize, this.checkpointBytes, this.hasSnapshotDir := valueSize, checkpointBytes, hasSnapshotDir;
      table := map[];
    }

    /** Whether appending one more record reaches the checkpoint threshold. */
    ghost predicate Triggers(written: nat)
      reads this, disk
    {
      checkpointBytes > 0 && written + RecordSize(disk.files.keySize) >= checkpointBytes && hasSnapshotDir
    }

    /** The call failed although its record is in the log: the sync after the write failed. */
    ghost predicate Unsynced(s: Status, written: nat)
      reads wal
    {
      s == IOError && wal.written != written
    }

    ghost predicate Wired()
      reads this
    {
      mgr.disk == disk && wal.disk == disk
    }

    ghost predicate Valid()
      reads this, mgr, mgr.segments.Values, wal, disk
    {
      Wired() && mgr.Valid() && Inv(table, mgr.MemsNow(), disk.files) &&
      (wal.isOpen ==> LogClean(disk.files, wal.written))
    }

    /** The map this store implements. */
    ghost function ViewNow(): map<Key, Value>
      reads this, disk
    {
      View(table, disk.files)
    }

    /** Restarting now would rebuild the table in memory. */
    ghost predicate Synced()
      reads this, disk
    {
      RecoveredTable(disk.files) == table
    }

    // -------------------------------------------------------------- log and checkpoint

    /** Dumps the table beside the snapshot, renames it into place, empties the log. */
    method SnapshotAndRotate() returns (s: Status)
      requires Wired() && (wal.isOpen ==> LogClean(disk.files, wal.written))
      modifies wal, disk
      ensures wal.isOpen ==> LogClean(disk.files, wal.written)
      ensures s == Ok || s == IOError || s == InvalidArgument
      ensures s == InvalidArgument <==> !hasSnapshotDir
      ensures disk.faulted == (old(disk.faulted) || s == IOError) && disk.logFaulted == old(disk.logFaulted)
      ensures disk.files.segs == old(disk.files).segs && disk.files.keySize == old(disk.files).keySize
      ensures s == Ok ==> disk.files.snapshot == table
      ensures s != IOError ==> wal.isOpen == old(wal.isOpen)
      ensures wal.isOpen ==> old(wal.isOpen) && wal.written <= old(wal.written)
      ensures s == Ok && old(wal.isOpen) ==> disk.files.wal == []
      ensures !old(wal.isOpen) ==> !wal.isOpen && disk.files.wal == old(disk.files).wal
      ensures disk.files.snapshot == table || disk.files == old(disk.files)
      ensures disk.files.wal == old(disk.files).wal || disk.files.wal == []
      ensures disk.files.wal != old(disk.files).wal ==> disk.files.snapshot == table
      ensures old(disk.files) in old(disk.seen) ==> disk.files in disk.seen
      ensures forall d :: d in disk.seen ==>
                d in old(disk.seen) || d == old(disk.files) || d == old(disk.files).(snapshot := table) ||
                d == old(disk.files).(snapshot := table, wal := [])
    {
      hide LogClean;
      if !hasSnapshotDir {
        return InvalidArgument;
      }
      s := disk.Request();
      if s != Ok {
        return;
      }
      s := disk.InstallSnapshot(table);
      if s != Ok {
        return;
      }
      assert wal.isOpen ==> LogClean(disk.files, wal.written) by {
        if wal.isOpen {
          SnapshotKeepsLog(old(disk.files), disk.files, wal.written);
        }
      }
      if wal.isOpen {
        s := wal.Rotate();
        if wal.isOpen {
          EmptyLogIsClean(disk.files);
        }
      }
    }

    /**
     * Logs one change, and checkpoints when the log has grown past the threshold.  With the
     * log closed nothing is written and success is reported.  `logged` tells whether the
     * record is in the log afterwards.
     */
    method AppendWal(kind: Byte, key: Key, addr: U64, oldAddr: U64) returns (s: Status, ghost logged: bool)
      requires Wired() && (wal.isOpen ==> LogClean(disk.files, wal.written)) && |key| == disk.files.keySize
      modifies wal, disk
      ensures wal.isOpen ==> LogClean(disk.files, wal.written)
      ensures s == Ok || s == IOError
      ensures (old(disk.faulted) || s == IOError) ==> disk.faulted
      ensures disk.files.segs == old(disk.files).segs && disk.files.keySize == old(disk.files).keySize
      ensures !old(wal.isOpen) ==>
                s == Ok && !logged && !wal.isOpen && disk.files == old(disk.files) && disk.seen == old(disk.seen) &&
                disk.logFaulted == old(disk.logFaulted)
      ensures old(disk.files) in old(disk.seen) ==> disk.files in disk.seen
      ensures !disk.faulted ==> wal.isOpen == old(wal.isOpen)
      ensures s == IOError ==> wal.isOpen == old(wal.isOpen) && (logged <==> wal.written != old(wal.written))
      ensures old(wal.isOpen) && !disk.faulted && !Triggers(old(wal.written)) ==>
                logged && wal.written == old(wal.written) + RecordSize(disk.files.keySize)
      // Below the threshold the log stays open, and its size tells whether the record is there.
      ensures old(wal.isOpen) && !Triggers(old(wal.written)) ==>
                wal.isOpen && wal.written == old(wal.written) + if logged then RecordSize(disk.files.keySize) else 0
      ensures disk.logFaulted ==> old(disk.logFaulted) || disk.faulted
      ensures old(disk.logFaulted) ==> disk.logFaulted
      ensures old(wal.isOpen) && !Triggers(old(wal.written)) && !old(disk.logFaulted) ==>
                (logged <==> !disk.logFaulted)
      // Without failures the threshold alone decides whether the record or a checkpoint stays.
      ensures old(wal.isOpen) && !disk.faulted && Triggers(old(wal.written)) ==> !logged
      ensures old(wal.isOpen) && !disk.faulted ==>
                RecoveredTable(disk.files) ==
                if Triggers(old(wal.written)) then table
                else Apply(RecoveredTable(old(disk.files)), Record(kind, key, addr, oldAddr))
      ensures old(wal.isOpen) && !disk.faulted ==> wal.written <= old(wal.written) + RecordSize(disk.files.keySize)
      ensures old(wal.isOpen) && s == Ok && !Triggers(old(wal.written)) ==>
                Logged(old(disk.files), disk.files, Record(kind, key, addr, oldAddr))
      ensures var r := Record(kind, key, addr, oldAddr);
              var r0 := RecoveredTable(old(disk.files));
              (old(wal.isOpen) && table == Apply(r0, r) ==>
                 RecoveredTable(disk.files) == if s == Ok || logged then Apply(r0, r) else r0) &&
              (old(wal.isOpen) && table == r0 ==>
                 RecoveredTable(disk.files) == if logged then Apply(r0, r) else r0) &&
              (table == r0 || table == Apply(r0, r) ==>
                 forall d :: d in disk.seen && d !in old(disk.seen) ==>
                   Logging(old(disk.files), d, r0, if s == Ok || logged then Apply(r0, r) else r0))
      // Whatever the table is, every state on the way recovers each key from it, or with or without the record.
      ensures var r0 := RecoveredTable(old(disk.files));
              var r1 := Apply(r0, Record(kind, key, addr, oldAddr));
              LoggingMix(old(disk.files), disk.files, r0, r1, table) &&
              forall d :: d in disk.seen && d !in old(disk.seen) ==> LoggingMix(old(disk.files), d, r0, r1, table)
    {
      hide LogClean, RecoveredTable, Apply, Replayed, RecordSize, LoggingMix;
      ghost var f := disk.files;
      var r := Record(kind, key, addr, oldAddr);
      InFlightMixes(f, f, r, false, table);
      if !wal.isOpen {
        return Ok, false;
      }
      s := wal.Append(r);
      AppendMixes(f, disk.files, r, wal.written != old(wal.written), table, old(disk.seen), disk.seen);
      logged := wal.written != old(wal.written);
      if s != Ok {
        return;
      }
      ghost var g, seen := disk.files, disk.seen;
      if checkpointBytes > 0 && wal.written >= checkpointBytes && hasSnapshotDir {
        // A failed checkpoint is not fatal: the log simply keeps growing.
        var _ := SnapshotAndRotate();
        SnapshotRecovers(g, table);
        SnapshotMixes(f, g, table, r);
        if RecoveredTable(f) == table {
          EarlySnapshotRecovers(f, g, table, r);
        }
        logged := disk.files.wal == g.wal;
        LogNotEmpty(g, old(wal.written), disk.files, wal.written);
      }
    }

    // -------------------------------------------------------------- slots

    /**
     * Appends to one segment: the table and everything it stands for are left alone, and so is
     * any other table `also` over the same segments.
     */
    method InsertActive(id: SegId, key: Key, value: Value, ghost also: Table) returns (s: Status, slot: nat)
      requires Valid() && id in mgr.segments && disk.files in disk.seen && |key| == disk.files.keySize
      requires Inv(also, mgr.MemsNow(), disk.files)
      modifies mgr.segments[id], disk
      ensures Valid() && mgr.segments == old(mgr.segments)
      ensures s == Ok || s == Status.Full || s == IOError
      ensures disk.faulted == (old(disk.faulted) || s == IOError) && disk.logFaulted == old(disk.logFaulted)
      ensures s == Status.Full <==> old(mgr.MemsNow())[id].cursor == old(mgr.MemsNow())[id].total
      ensures s == Status.Full ==> disk.files == old(disk.files) && disk.seen == old(disk.seen)
      ensures Harmless(old(disk.files), disk.files, table) && disk.files in disk.seen
      ensures forall d :: d in disk.seen ==> d in old(disk.seen) || Harmless(old(disk.files), d, table)
      ensures Inv(also, mgr.MemsNow(), disk.files) && Harmless(old(disk.files), disk.files, also)
      ensures forall d :: d in disk.seen ==> d in old(disk.seen) || Harmless(old(disk.files), d, also)
      ensures s != Ok ==> mgr.MemsNow() == old(mgr.MemsNow())
      ensures s == Ok ==> slot < SLOT_UNIT
      ensures s == Ok ==>
                Filling(old(mgr.MemsNow()), old(disk.files), mgr.MemsNow(), disk.files, id, slot, Slot(key, value))
    {
      hide Inv, Store.Mounted, LogClean, Harmless, Filling, Touched, SeenTouched, SegmentManager.Valid,
           SegmentManager.MemsNow;
      ghost var mems, f, seen := mgr.MemsNow(), disk.files, disk.seen;
      MemsCover();
      InvParts(table, mems, f);
      s, slot := mgr.InsertInto(id, key, value);
      InsertOutcome(table, mems, f, id, slot, Slot(key, value), s, mgr.MemsNow(), disk.files, seen, disk.seen);
      InsertOutcome(also, mems, f, id, slot, Slot(key, value), s, mgr.MemsNow(), disk.files, seen, disk.seen);
    }

    lemma MemsCover()
      ensures mgr.MemsNow().Keys == mgr.segments.Keys
      ensures forall id :: id in mgr.segments ==> mgr.MemsNow()[id] == mgr.segments[id].Mem()
    {
    }

    /** Finds an active segment and tries to append there. */
    method InsertSomewhere(key: Key, value: Value) returns (s: Status, id: SegId, slot: nat)
      requires Valid() && disk.files in disk.seen && |key| == disk.files.keySize
      modifies mgr, mgr.segments.Values, disk
      ensures Valid() && mgr.segments == old(mgr.segments)
      ensures s == Ok || s == NoSpace || s == Status.Full || s == IOError
      ensures disk.faulted == (old(disk.faulted) || s == IOError)
      ensures Picked(old(mgr.Classification()), mgr.Classification(), old(mgr.MemsNow()),
                     if s == NoSpace then None else Some(id))
      ensures s != NoSpace ==> id in old(mgr.MemsNow()) && id in mgr.appendingSet
      ensures s != NoSpace ==>
                (s == Status.Full <==> old(mgr.MemsNow())[id].cursor == old(mgr.MemsNow())[id].total)
      ensures s == NoSpace || s == Status.Full ==> disk.files == old(disk.files) && disk.seen == old(disk.seen)
      ensures Harmless(old(disk.files), disk.files, table) && disk.files in disk.seen
      ensures forall d :: d in disk.seen ==> d in old(disk.seen) || Harmless(old(disk.files), d, table)
      ensures s != Ok ==> mgr.MemsNow() == old(mgr.MemsNow())
      ensures s == Ok ==> slot < SLOT_UNIT
      ensures s == Ok ==>
                Filling(old(mgr.MemsNow()), old(disk.files), mgr.MemsNow(), disk.files, id, slot, Slot(key, value))
      ensures NoDup(old(mgr.fullOrder)) ==> NoDup(mgr.fullOrder)
    {
      hide Inv, LogClean, Harmless, Filling, SegmentManager.Valid, SegmentManager.MemsNow, NoDup, Partition, Picked,
           Consistent;
      id, slot := 0, 0;
      HarmlessNothing(table, mgr.MemsNow(), disk.files);
      var seg := mgr.GetActiveSegment();
      MemsCover();
      if seg == null {
        return NoSpace, 0, 0;
      }
      id := seg.id;
      PickedIsAppending(old(mgr.Classification()), mgr.Classification(), mgr.MemsNow(), id);
      s, slot := InsertActive(id, key, value, table);
    }

    /** Appends key and value to an active segment, switching segments once if it is full. */
    method WriteToSegment(key: Key, value: Value) returns (s: Status, enc: U64)
      requires Valid() && |key| == disk.files.keySize && disk.files in disk.seen
      modifies mgr, mgr.segments.Values, disk
      ensures Valid() && mgr.segments == old(mgr.segments)
      ensures s == Ok || s == NoSpace || s == Status.Full || s == IOError
      ensures disk.faulted == (old(disk.faulted) || s == IOError)
      ensures Harmless(old(disk.files), disk.files, table) && disk.files in disk.seen
      ensures forall d :: d in disk.seen ==> d in old(disk.seen) || Harmless(old(disk.files), d, table)
      ensures s == NoSpace || s == Status.Full ==> disk.files == old(disk.files)
      ensures s != Ok ==> mgr.MemsNow() == old(mgr.MemsNow())
      ensures s == Ok ==> IsSlot(enc)
      ensures s == Ok ==> Filling(old(mgr.MemsNow()), old(disk.files), mgr.MemsNow(), disk.files,
                                  SegmentOf(enc), SlotOf(enc), Slot(key, value))
      ensures old(OneAppending(mgr.Classification(), mgr.MemsNow())) ==>
                OneAppending(mgr.Classification(), mgr.MemsNow()) && s != Status.Full &&
                (s != IOError ==> (s == NoSpace <==> old(NoRoom(mgr.Classification(), mgr.MemsNow()))))
      ensures NoDup(old(mgr.fullOrder)) ==> NoDup(mgr.fullOrder)
      ensures old(NoneFound(mgr.Classification(), mgr.MemsNow())) ==> s == NoSpace
      // It gives up only as the choices of segments allow it, and with room left only behind two filled ones.
      ensures s == NoSpace || s == Status.Full ==>
                old(NoneFound(mgr.Classification(), mgr.MemsNow()) || CanGiveUp(mgr.Classification(), mgr.MemsNow()))
      ensures (s == NoSpace || s == Status.Full) && old(SomeRoom(mgr.Classification(), mgr.MemsNow())) ==>
                old(TwoFilled(mgr.Classification(), mgr.MemsNow()))
    {
      hide Inv, LogClean, Harmless, Filling, SegmentManager.Valid, SegmentManager.MemsNow, NoDup, SomeRoom, TwoFilled,
           IsSlot, SegmentOf, SlotOf, EncodeSlot, OneAppending, NoRoom, Partition, Picked, Consistent, MarkedFull,
           NoneFound;
      enc := 0;
      ghost var mems, c0 := mgr.MemsNow(), mgr.Classification();
      ghost var one := OneAppending(c0, mems);
      ManagerParts();
      var id, slot;
      s, id, slot := InsertSomewhere(key, value);
      ghost var c1 := mgr.Classification();
      FoundIfOffered(c0, c1, mems, if s == NoSpace then None else Some(id));
      if s != NoSpace {
        InRange(mems[id]);
      }
      if one {
        PickFindsRoom(c0, c1, mems, if s == NoSpace then None else Some(id));
      }
      if s == Status.Full {
        ManagerParts();
        var _ := mgr.MarkSegmentFull(id);
        ghost var full := id;
        s, id, slot := InsertSomewhere(key, value);
        if s == NoSpace || s == Status.Full {
          assert GivesUp(c0, mems, c1, full, mgr.Classification(), if s == NoSpace then None else Some(id));
        }
        if one {
          SecondPickFindsRoom(c1, full, mgr.Classification(), mems, if s == NoSpace then None else Some(id));
        }
      }
      if s == Ok {
        enc := EncodeSlot(id, slot);
        SlotRoundTrip(id, slot);
        if one {
          InsertKeepsOne(mems, old(disk.files), disk.files, id, slot, Slot(key, value));
        }
      }
      if s == NoSpace || s == Status.Full {
        GaveUp(c0, mems);
      }
    }

    lemma InsertKeepsOne(mems: Mems, f: Files, f': Files, id: SegId, slot: nat, c: Slot)
      requires mgr.Valid() && Filling(mems, f, mgr.MemsNow(), f', id, slot, c)
      requires OneAppending(mgr.Classification(), mems) && id in mgr.appendingSet
      ensures OneAppending(mgr.Classification(), mgr.MemsNow())
    {
      ManagerParts();
      assert mgr.MemsNow().Keys == mems.Keys;
      AppendKeepsOne(mgr.Classification(), mems, id);
    }

    /** Frees the slot an encoded offset names, which no entry uses. */
    method FreeSlot(enc: U64) returns (s: Status)
      requires Valid() && disk.files in disk.seen && Unused(table, enc)
      modifies mgr.segments.Values, disk
      ensures Valid() && disk.files in disk.seen
      ensures disk.faulted == (old(disk.faulted) || s == IOError)
      ensures disk.flushFaulted == (old(disk.flushFaulted) || s == IOError)
      ensures Flag(enc) == SEGMENT_SLOT && Live(old(mgr.MemsNow()), enc) ==> s == Ok || s == IOError
      ensures Flag(enc) == SEGMENT_SLOT && s == Ok ==>
                Occupied(old(mgr.MemsNow()), SegmentOf(enc), SlotOf(enc)) &&
                mgr.MemsNow() ==
                old(mgr.MemsNow())[SegmentOf(enc) := Freed(old(mgr.MemsNow())[SegmentOf(enc)], SlotOf(enc))]
      ensures s != Ok ==> mgr.MemsNow() == old(mgr.MemsNow())
      ensures Flag(enc) == SEGMENT_SLOT && s == Ok ==> SlotFree(disk.files, enc)
      ensures SameSlots(old(disk.files), disk.files)
      ensures Harmless(old(disk.files), disk.files, table)
      ensures forall d :: d in disk.seen ==> d in old(disk.seen) || Harmless(old(disk.files), d, table)
    {
      hide Inv, Store.Mounted, LogClean, Harmless, BitmapTouched, Touched, SegmentManager.Valid, SegmentManager.MemsNow,
           Flag, SegmentOf, SlotOf, Freed, Occupied, Consistent, Unused, Bitmap.Clear, SlotFree;
      ghost var mems, f, seen := mgr.MemsNow(), disk.files, disk.seen;
      HarmlessNothing(table, mems, f);
      MemsCover();
      InvParts(table, mems, f);
      if Flag(enc) != SEGMENT_SLOT {
        return Ok;
      }
      var id := SegmentOf(enc);
      if id !in mgr.segments {
        NotLive(mems, enc);
        return NotFound;
      }
      s := mgr.DeleteFrom(id, SlotOf(enc));
      FreeOutcome(table, mems, f, enc, s, mgr.MemsNow(), disk.files, seen, disk.seen);
    }

    // -------------------------------------------------------------- put, get, delete

    /**
     * Writes the value to a segment, points the key at it, logs the change, and frees the
     * slot the key had before.  A log failure undoes the first two steps.
     */
    method Put(key: Key, value: Value) returns (s: Status)
      requires Valid() && |key| == disk.files.keySize
      modifies this`table, mgr, mgr.segments.Values, wal, disk
      ensures disk.files.keySize == old(disk.files).keySize
      ensures Valid() && mgr.segments == old(mgr.segments)
      ensures s == Ok || s == InvalidArgument || s == NoSpace || s == Status.Full || s == IOError
      ensures s == InvalidArgument <==> |value| != valueSize
      ensures old(disk.faulted) || s == IOError ==> disk.faulted
      // A plain map update, or nothing.
      ensures s == Ok ==> ViewNow() == old(ViewNow())[key := value]
      ensures s != Ok ==> ViewNow() == old(ViewNow()) && table == old(table)
      ensures s == Ok ==> key in table && table == old(table)[key := table[key]] && table != old(table)
      // One record, unless a checkpoint has taken its place.
      ensures old(wal.isOpen) && s == Ok && !Triggers(old(wal.written)) ==>
                key in table &&
                Logged(old(disk.files), disk.files,
                       if key in old(table) then Record(UPDATE, key, table[key], old(table)[key])
                       else Record(INSERT, key, table[key], 0))
      // Restarting rebuilds the table, unless the log was not written or not undone.
      ensures old(Synced()) && old(wal.isOpen) && !Unsynced(s, old(wal.written)) ==> Synced()
      ensures old(Synced()) && old(wal.isOpen) && Unsynced(s, old(wal.written)) ==> !Synced()
      ensures old(Synced()) && old(wal.isOpen) && Unsynced(s, old(wal.written)) ==>
                RecordLeft(old(table), key, mgr.MemsNow(), disk.files)
      ensures old(Synced()) && !old(wal.isOpen) && s == Ok ==> !Synced()
      // A crash at any point recovers the state before or the state after.
      ensures old(Synced()) && old(wal.isOpen) && !Unsynced(s, old(wal.written)) ==>
                AllAtomic(disk.seen, old(table), old(ViewNow()), table, ViewNow())
      // No slot is lost unless a bitmap could not be written, and space runs out only when it must.
      ensures (!disk.faulted || !disk.flushFaulted) && Conserved(old(table), old(mgr.MemsNow()), old(disk.files)) ==>
                Conserved(table, mgr.MemsNow(), disk.files)
      ensures old(OneAppending(mgr.Classification(), mgr.MemsNow())) ==>
                OneAppending(mgr.Classification(), mgr.MemsNow()) && s != Status.Full &&
                (s == NoSpace ==> old(NoRoom(mgr.Classification(), mgr.MemsNow()))) &&
                (s == Ok ==> !old(NoRoom(mgr.Classification(), mgr.MemsNow())))
      ensures (s == NoSpace || s == Status.Full) && old(SomeRoom(mgr.Classification(), mgr.MemsNow())) ==>
                old(TwoFilled(mgr.Classification(), mgr.MemsNow()))
      ensures !disk.faulted ==> wal.isOpen == old(wal.isOpen)
      ensures wal.isOpen ==> old(wal.isOpen)
      ensures !old(wal.isOpen) ==> disk.files.wal == old(disk.files).wal
      ensures old(wal.isOpen) && !disk.faulted ==> wal.written <= old(wal.written) + RecordSize(disk.files.keySize)
    {
      hide Replayed, RecordSize, Inv, LogClean, Harmless, AllAtomic, Filling, ConservedBut, View, RecoveredTable, Live,
           SegmentManager.Valid, SegmentManager.MemsNow, IsSlot, Flag, SegmentOf, SlotOf, Unused,
           OneAppending, NoRoom, NoDup, RecordLeft, SomeRoom, TwoFilled, NoneFound, CanGiveUp;
      disk.Begin();
      ghost var t, f, mems := table, disk.files, mgr.MemsNow();
      HarmlessNothing(t, mems, f);
      WritePhase(t, mems, f, f, disk.seen);
      if |value| != valueSize {
        return InvalidArgument;
      }
      var enc;
      s, enc := WriteToSegment(key, value);
      WritePhase(t, mems, f, disk.files, disk.seen);
      if s != Ok {
        return;
      }
      InstallPhase(t, mems, f, mgr.MemsNow(), disk.files, enc, key, value);
      s := Install(key, enc);
    }

    /** Logs the change from table `t` to the current one. */
    method LogChange(kind: Byte, key: Key, addr: U64, oldAddr: U64, ghost t: Table) returns (s: Status)
      requires Valid() && Inv(t, mgr.MemsNow(), disk.files) && |key| == disk.files.keySize && disk.files in disk.seen
      requires table == Apply(t, Record(kind, key, addr, oldAddr))
      requires RecoveredTable(disk.files) == t ==> AllAtomic(disk.seen, t, View(t, disk.files), t, View(t, disk.files))
      modifies wal, disk
      ensures Valid() && Inv(t, mgr.MemsNow(), disk.files) && disk.files in disk.seen
      ensures s == Ok || s == IOError
      ensures old(disk.faulted) || s == IOError ==> disk.faulted
      ensures !disk.faulted ==> wal.isOpen == old(wal.isOpen)
      ensures wal.isOpen ==> old(wal.isOpen)
      ensures !old(wal.isOpen) ==> disk.files == old(disk.files)
      ensures old(wal.isOpen) && !disk.faulted ==> wal.written <= old(wal.written) + RecordSize(disk.files.keySize)
      ensures disk.files.keySize == old(disk.files).keySize && disk.files.segs == old(disk.files).segs
      ensures old(wal.isOpen) && s == Ok && !Triggers(old(wal.written)) ==>
                Logged(old(disk.files), disk.files, Record(kind, key, addr, oldAddr))
      ensures View(t, disk.files) == View(t, old(disk.files)) && ViewNow() == old(ViewNow())
      ensures !old(wal.isOpen) ==> s == Ok && RecoveredTable(disk.files) == RecoveredTable(old(disk.files))
      ensures RecoveredTable(old(disk.files)) == t && old(wal.isOpen) ==>
                RecoveredTable(disk.files) == (if s == Ok || Unsynced(s, old(wal.written)) then table else t)
      ensures RecoveredTable(old(disk.files)) == t && (s == Ok || Unsynced(s, old(wal.written))) ==>
                AllAtomic(disk.seen, t, View(t, old(disk.files)), table, ViewNow())
      ensures RecoveredTable(old(disk.files)) == t && s != Ok && !Unsynced(s, old(wal.written)) ==>
                AllAtomic(disk.seen, t, View(t, old(disk.files)), t, View(t, old(disk.files)))
    {
      hide Replayed, RecordSize, Inv, LogClean, Logging, AllAtomic, ConservedBut, View, RecoveredTable, Apply,
           SegmentManager.Valid, SegmentManager.MemsNow;
      ghost var f, seen := disk.files, disk.seen;
      ghost var logged;
      s, logged := AppendWal(kind, key, addr, oldAddr);
      LogPhase(t, table, mgr.MemsNow(), f, f, disk.files, seen, disk.seen, s == Ok || logged);
    }

    /** Frees a slot that no entry names any more, at the end of an operation that began in `t`. */
    method FreeUnused(a: U64, ghost t: Table, ghost v: map<Key, Value>) returns (s: Status)
      requires Valid() && disk.files in disk.seen
      requires Unused(table, a) && Live(mgr.MemsNow(), a) && IsSlot(a) && Flag(a) == SEGMENT_SLOT
      modifies mgr.segments.Values, disk
      ensures disk.files.keySize == old(disk.files).keySize && disk.files.wal == old(disk.files).wal
      ensures Valid()
      ensures s == Ok || s == IOError
      ensures if s == Ok then SlotFree(disk.files, a) else mgr.MemsNow() == old(mgr.MemsNow())
      ensures disk.faulted == (old(disk.faulted) || s == IOError)
      ensures disk.flushFaulted == (old(disk.flushFaulted) || s == IOError)
      ensures ViewNow() == old(ViewNow()) && RecoveredTable(disk.files) == RecoveredTable(old(disk.files))
      ensures old(Synced()) && AllAtomic(old(disk.seen), t, v, table, old(ViewNow())) ==>
                AllAtomic(disk.seen, t, v, table, ViewNow())
      ensures s == Ok && ConservedBut(table, old(mgr.MemsNow()), old(disk.files), Some(a)) ==>
                Conserved(table, mgr.MemsNow(), disk.files)
      ensures OneAppending(mgr.Classification(), old(mgr.MemsNow())) ==>
                OneAppending(mgr.Classification(), mgr.MemsNow())
    {
      hide Replayed, RecordSize, Inv, LogClean, Harmless, AllAtomic, ConservedBut, View, RecoveredTable, Live,
           SegmentManager.Valid, SegmentManager.MemsNow, IsSlot, Flag, SegmentOf, SlotOf, Unused, Occupied,
           OneAppending, SameSlots, Freed, SlotFree;
      ghost var f, mems, seen := disk.files, mgr.MemsNow(), disk.seen;
      s := FreeSlot(a);
      FreePhase(t, table, v, mems, f, a, s, mgr.MemsNow(), disk.files, seen, disk.seen);
      FreeKeepsOne(mgr.Classification(), mems, mgr.MemsNow(), SegmentOf(a), SlotOf(a));
    }

    /** Takes back an entry whose record could not be logged, and frees its slot. */
    method TakeBack(key: Key, enc: U64, hadOld: bool, oldEnc: U64, ghost t: Table, ghost v: map<Key, Value>)
      requires Valid() && Inv(t, mgr.MemsNow(), disk.files) && disk.files in disk.seen
      requires table == t[key := enc] && hadOld == (key in t) && (hadOld ==> oldEnc == t[key])
      requires Unused(t, enc) && Live(mgr.MemsNow(), enc) && IsSlot(enc) && Flag(enc) == SEGMENT_SLOT
      modifies this`table, mgr.segments.Values, disk
      ensures disk.files.keySize == old(disk.files).keySize && disk.files.wal == old(disk.files).wal
      ensures Valid() && table == t && (old(disk.faulted) ==> disk.faulted)
      ensures ViewNow() == View(t, old(disk.files)) && RecoveredTable(disk.files) == RecoveredTable(old(disk.files))
      ensures RecoveredTable(disk.files) == t[key := enc] ==> RecordLeft(t, key, mgr.MemsNow(), disk.files)
      ensures RecoveredTable(old(disk.files)) == t && AllAtomic(old(disk.seen), t, v, t, View(t, old(disk.files))) ==>
                AllAtomic(disk.seen, t, v, t, ViewNow())
      ensures !disk.flushFaulted && ConservedBut(t, old(mgr.MemsNow()), old(disk.files), Some(enc)) ==>
                Conserved(table, mgr.MemsNow(), disk.files)
      ensures OneAppending(mgr.Classification(), old(mgr.MemsNow())) ==>
                OneAppending(mgr.Classification(), mgr.MemsNow())
    {
      hide Inv, LogClean, AllAtomic, ConservedBut, View, RecoveredTable, Live, SegmentManager.Valid,
           SegmentManager.MemsNow, IsSlot, Flag, Unused, OneAppending, SlotFree, RecordLeft;
      table := if hadOld then table[key := oldEnc] else table - {key};
      assert table == t;
      ghost var mems := mgr.MemsNow();
      var freed := FreeUnused(enc, t, v);
      LeftBehind(t, key, enc, mems, mgr.MemsNow(), disk.files, freed);
    }

    /** The second half of a put: install the new offset, log it, free the loser. */
    method Install(key: Key, enc: U64) returns (s: Status)
      requires Valid() && |key| == disk.files.keySize && disk.files in disk.seen
      requires Inv(table[key := enc], mgr.MemsNow(), disk.files) && table[key := enc] != table
      requires Unused(table, enc) && Live(mgr.MemsNow(), enc) && IsSlot(enc) && Flag(enc) == SEGMENT_SLOT
      requires key in table ==>
                 Unused(table[key := enc], table[key]) && Live(mgr.MemsNow(), table[key]) &&
                 IsSlot(table[key]) && Flag(table[key]) == SEGMENT_SLOT
      requires Synced() ==> AllAtomic(disk.seen, table, ViewNow(), table, ViewNow())
      modifies this`table, mgr.segments.Values, wal, disk
      ensures disk.files.keySize == old(disk.files).keySize
      ensures old(wal.isOpen) && s == Ok && !Triggers(old(wal.written)) ==>
                Logged(old(disk.files), disk.files,
                       if key in old(table) then Record(UPDATE, key, enc, old(table)[key])
                       else Record(INSERT, key, enc, 0))
      ensures Valid()
      ensures s == Ok || s == IOError
      ensures old(disk.faulted) || s == IOError ==> disk.faulted
      ensures table == if s == Ok then old(table)[key := enc] else old(table)
      ensures ViewNow() == View(table, old(disk.files))
      ensures old(Synced()) && old(wal.isOpen) ==> (Synced() <==> !Unsynced(s, old(wal.written)))
      ensures old(Synced()) && !old(wal.isOpen) ==> s == Ok && !Synced()
      ensures old(Synced()) && old(wal.isOpen) && Unsynced(s, old(wal.written)) ==>
                RecordLeft(old(table), key, mgr.MemsNow(), disk.files)
      ensures old(Synced()) && old(wal.isOpen) && !Unsynced(s, old(wal.written)) ==>
                AllAtomic(disk.seen, old(table), old(ViewNow()), table, ViewNow())
      ensures (!disk.faulted || !disk.flushFaulted) &&
              ConservedBut(old(table)[key := enc], old(mgr.MemsNow()), old(disk.files),
                                            if key in old(table) then Some(old(table)[key]) else None) ==>
                Conserved(table, mgr.MemsNow(), disk.files)
      ensures OneAppending(mgr.Classification(), old(mgr.MemsNow())) ==>
                OneAppending(mgr.Classification(), mgr.MemsNow())
      ensures !disk.faulted ==> wal.isOpen == old(wal.isOpen)
      ensures wal.isOpen ==> old(wal.isOpen)
      ensures !old(wal.isOpen) ==> disk.files.wal == old(disk.files).wal
      ensures old(wal.isOpen) && !disk.faulted ==> wal.written <= old(wal.written) + RecordSize(disk.files.keySize)
    {
      hide Replayed, RecordSize, Inv, LogClean, Harmless, Logging, AllAtomic, ConservedBut, View, RecoveredTable, Live,
           SegmentManager.Valid, SegmentManager.MemsNow, IsSlot, Flag, SegmentOf, SlotOf, Unused, Occupied,
           OneAppending, SameSlots, Freed, SlotFree, RecordLeft;
      ghost var t, f := table, disk.files;
      UndonePhase(t, mgr.MemsNow(), f, key, enc);
      var hadOld := key in table;
      var oldEnc := if hadOld then table[key] else 0;
      table := table[key := enc];
      s := LogChange(if hadOld then UPDATE else INSERT, key, enc, oldEnc, t);
      StillConserved(t, mgr.MemsNow(), f, disk.files, Some(enc));
      StillConserved(table, mgr.MemsNow(), f, disk.files, if hadOld then Some(oldEnc) else None);
      if s != Ok {
        TakeBack(key, enc, hadOld, oldEnc, t, View(t, f));
      } else if hadOld {
        var _ := FreeUnused(oldEnc, t, View(t, f));
      }
    }

    /** Removes the entry, logs the removal, frees the slot; a log failure restores the entry. */
    method Delete(key: Key) returns (s: Status)
      requires Valid() && |key| == disk.files.keySize
      modifies this`table, mgr.segments.Values, wal, disk
      ensures disk.files.keySize == old(disk.files).keySize
      ensures Valid()
      ensures s == Ok || s == NotFound || s == IOError
      ensures s == NotFound <==> key !in old(table)
      ensures old(disk.faulted) || s == IOError ==> disk.faulted
      ensures s == Ok ==> ViewNow() == old(ViewNow()) - {key}
      ensures s != Ok ==> ViewNow() == old(ViewNow()) && table == old(table)
      ensures old(wal.isOpen) && s == Ok && !Triggers(old(wal.written)) ==>
                key in old(table) && Logged(old(disk.files), disk.files, Record(DELETE, key, 0, old(table)[key]))
      ensures old(Synced()) && old(wal.isOpen) ==> (Synced() <==> !Unsynced(s, old(wal.written)))
      ensures old(Synced()) && !old(wal.isOpen) && s == Ok ==> !Synced()
      // Atomic even when the sync fails: the slot is freed only after success.
      ensures old(Synced()) && old(wal.isOpen) ==>
                AllAtomic(disk.seen, old(table), old(ViewNow()), old(table) - {key}, old(ViewNow()) - {key})
      ensures old(Synced()) && old(wal.isOpen) && s != Ok && !Unsynced(s, old(wal.written)) ==>
                AllAtomic(disk.seen, old(table), old(ViewNow()), old(table), old(ViewNow()))
      ensures (!disk.faulted || !disk.flushFaulted) && Conserved(old(table), old(mgr.MemsNow()), old(disk.files)) ==>
                Conserved(table, mgr.MemsNow(), disk.files)
      ensures OneAppending(mgr.Classification(), old(mgr.MemsNow())) ==>
                OneAppending(mgr.Classification(), mgr.MemsNow())
      ensures !disk.faulted ==> wal.isOpen == old(wal.isOpen)
      ensures wal.isOpen ==> old(wal.isOpen)
      ensures old(wal.isOpen) && !disk.faulted ==> wal.written <= old(wal.written) + RecordSize(disk.files.keySize)
    {
      hide Replayed, RecordSize, Inv, LogClean, Harmless, AllAtomic, ConservedBut, View, RecoveredTable, Live,
           SegmentManager.Valid, SegmentManager.MemsNow, IsSlot, Flag, SegmentOf, SlotOf, Unused, OneAppending;
      disk.Begin();
      ghost var t, f, mems := table, disk.files, mgr.MemsNow();
      HarmlessNothing(t, mems, f);
      WritePhase(t, mems, f, f, disk.seen);
      AtomicMore(disk.seen, t, View(t, f), t - {key}, View(t, f) - {key});
      if key !in table {
        return NotFound;
      }
      RemovePhase(t, mems, f, key);
      s := Drop(key);
    }

    /** Takes an entry out of the table, logs that, and frees its slot; puts it back if logging fails. */
    method Drop(key: Key) returns (s: Status)
      requires Valid() && |key| == disk.files.keySize && disk.files in disk.seen && key in table
      requires Inv(table - {key}, mgr.MemsNow(), disk.files) && table - {key} != table
      requires Unused(table - {key}, table[key]) && Live(mgr.MemsNow(), table[key])
      requires IsSlot(table[key]) && Flag(table[key]) == SEGMENT_SLOT
      requires Synced() ==> AllAtomic(disk.seen, table, ViewNow(), table, ViewNow())
      modifies this`table, mgr.segments.Values, wal, disk
      ensures disk.files.keySize == old(disk.files).keySize
      ensures Valid()
      ensures s == Ok || s == IOError
      ensures old(disk.faulted) || s == IOError ==> disk.faulted
      ensures table == if s == Ok then old(table) - {key} else old(table)
      ensures ViewNow() == View(table, old(disk.files))
      ensures old(wal.isOpen) && s == Ok && !Triggers(old(wal.written)) ==>
                Logged(old(disk.files), disk.files, Record(DELETE, key, 0, old(table)[key]))
      ensures old(Synced()) && old(wal.isOpen) ==> (Synced() <==> !Unsynced(s, old(wal.written)))
      ensures old(Synced()) && !old(wal.isOpen) && s == Ok ==> !Synced()
      ensures old(Synced()) && old(wal.isOpen) ==>
                AllAtomic(disk.seen, old(table), old(ViewNow()), old(table) - {key},
                          View(old(table) - {key}, old(disk.files)))
      ensures old(Synced()) && old(wal.isOpen) && s != Ok && !Unsynced(s, old(wal.written)) ==>
                AllAtomic(disk.seen, old(table), old(ViewNow()), old(table), old(ViewNow()))
      ensures (!disk.faulted || !disk.flushFaulted) && Conserved(old(table), old(mgr.MemsNow()), old(disk.files)) ==>
                Conserved(table, mgr.MemsNow(), disk.files)
      ensures OneAppending(mgr.Classification(), old(mgr.MemsNow())) ==>
                OneAppending(mgr.Classification(), mgr.MemsNow())
      ensures !disk.faulted ==> wal.isOpen == old(wal.isOpen)
      ensures wal.isOpen ==> old(wal.isOpen)
      ensures old(wal.isOpen) && !disk.faulted ==> wal.written <= old(wal.written) + RecordSize(disk.files.keySize)
    {
      hide Replayed, RecordSize, Inv, LogClean, Harmless, AllAtomic, ConservedBut, View, RecoveredTable, Live,
           SegmentManager.Valid, SegmentManager.MemsNow, IsSlot, Flag, SegmentOf, SlotOf, Unused, OneAppending,
           SlotFree;
      ghost var t, f := table, disk.files;
      RemovePhase(t, mgr.MemsNow(), f, key);
      var oldEnc := table[key];
      table := table - {key};
      s := LogChange(DELETE, key, 0, oldEnc, t);
      StillConserved(t, mgr.MemsNow(), f, disk.files, None);
      StillConserved(table, mgr.MemsNow(), f, disk.files, Some(oldEnc));
      AtomicMore(disk.seen, t, View(t, f), t - {key}, View(t - {key}, f));
      if s != Ok {
        table := table[key := oldEnc];
        assert table == t;
        return;
      }
      var _ := FreeUnused(oldEnc, t, View(t, f));
    }

    method Get(key: Key, size: nat) returns (s: Status, value: Value)
      requires Valid()
      modifies disk`faulted
      ensures Valid()
      ensures s == InvalidArgument <==> size != valueSize
      ensures s == NotFound <==> size == valueSize && key !in table
      ensures s == Ok || s == InvalidArgument || s == NotFound || Failure(s)
      ensures s == Ok ==> value == ViewNow()[key]
      ensures disk.faulted == (old(disk.faulted) || Failure(s))
    {
      hide Store.Mounted, Consistent, Partition, SegmentOf, SlotOf, Flag, Bitmap.IsSet, LogClean,
           SegmentManager.MemsNow;
      value := [];
      if size != valueSize {
        return InvalidArgument, [];
      }
      if key !in table {
        return NotFound, [];
      }
      var enc := table[key];
      EntryParts(table, mgr.MemsNow(), disk.files, key);
      MemsCover();
      var id := SegmentOf(enc);
      InvParts(table, mgr.MemsNow(), disk.files);
      InRange(mgr.MemsNow()[id]);
      mgr.SegmentMounted(id);
      var c;
      s, c := mgr.segments[id].Read(SlotOf(enc));
      value := c.value;
    }

    /** Takes a snapshot and empties the log. */
    method Checkpoint() returns (s: Status)
      requires Valid()
      modifies wal, disk
      ensures disk.files.keySize == old(disk.files).keySize
      ensures Valid() && ViewNow() == old(ViewNow())
      ensures s == InvalidArgument <==> !hasSnapshotDir
      ensures s == Ok || s == InvalidArgument || s == IOError
      ensures old(disk.faulted) || s == IOError ==> disk.faulted
      ensures !disk.faulted ==> wal.isOpen == old(wal.isOpen)
      ensures wal.isOpen ==> old(wal.isOpen)
      ensures wal.isOpen ==> wal.written <= old(wal.written)
      ensures old(Synced()) ==> Synced()
      ensures old(Synced()) ==> AllAtomic(disk.seen, table, ViewNow(), table, ViewNow())
      ensures s == Ok ==> disk.files.snapshot == table && (old(wal.isOpen) ==> disk.files.wal == [])
      // With the log open a checkpoint repairs any disagreement; with it closed, the old log stays.
      ensures s == Ok && old(wal.isOpen) ==> Synced()
      ensures s == Ok && !old(wal.isOpen) ==>
                RecoveredTable(disk.files) == ApplyAll(table, Replayed(old(disk.files).keySize, old(disk.files).wal)) &&
                (Synced() <==> LogAgrees(table, Replayed(old(disk.files).keySize, old(disk.files).wal)))
      ensures Conserved(table, mgr.MemsNow(), old(disk.files)) ==> Conserved(table, mgr.MemsNow(), disk.files)
    {
      hide LogAgrees, Inv, LogClean, AllAtomic, ConservedBut, View, ApplyAll, Replayed, SegmentManager.Valid,
           SegmentManager.MemsNow;
      disk.Begin();
      ghost var f, mems := disk.files, mgr.MemsNow();
      SnapshotRecovers(f, table);
      ReplayKeepsIff(table, Replayed(f.keySize, f.wal));
      s := SnapshotAndRotate();
      InvSameSegs(table, mems, f, disk.files);
      if Conserved(table, mems, f) {
        ConservedSameSegs(table, mems, f, disk.files, None);
      }
      if RecoveredTable(f) == table {
        SnapshotPhase(table, mems, f, disk.seen);
      }
    }

    lemma ManagerParts()
      requires mgr.Valid()
      ensures Partition(mgr.Classification(), mgr.MemsNow().Keys) && mgr.MemsNow().Keys == mgr.segments.Keys
      ensures forall id :: id in mgr.MemsNow() ==> Consistent(mgr.MemsNow()[id])
    {
      hide Partition, Consistent;
      assert mgr.MemsNow().Keys == mgr.segments.Keys;
    }
  }

  lemma PickedIsAppending(c: Classes, c': Classes, mems: Mems, id: SegId)
    requires Picked(c, c', mems, Some(id))
    ensures id in c'.appending && id in mems
  {
  }

  ghost predicate AllAtomic(seen: iset<Files>, t: Table, v: map<Key, Value>, t': Table, v': map<Key, Value>) {
    forall d :: d in seen ==> Atomic(d, t, v, t', v')
  }

  /** While the value is being written, recovery still finds the old state. */
  lemma WritePhase(t: Table, mems: Mems, f: Files, f': Files, seen: iset<Files>)
    requires Inv(t, mems, f) && Harmless(f, f', t)
    requires forall d :: d in seen ==> d == f || Harmless(f, d, t)
    ensures View(t, f') == View(t, f) && RecoveredTable(f') == RecoveredTable(f)
    ensures f'.keySize == f.keySize && f'.wal == f.wal
    ensures RecoveredTable(f) == t ==> AllAtomic(seen, t, View(t, f), t, View(t, f))
    ensures Conserved(t, mems, f) ==> Conserved(t, mems, f')
  {
    hide View, RecoveredTable, AllStored, ConservedBut;
    InvParts(t, mems, f);
    if Conserved(t, mems, f) {
      ConservedStored(t, mems, f, f');
    }
  }

  /** Pointing the key at the slot just filled. */
  lemma InstallPhase(t: Table, mems: Mems, f: Files, mems': Mems, f': Files, a: U64, key: Key, value: Value)
    requires Inv(t, mems, f) && Inv(t, mems', f') && Harmless(f, f', t) && IsSlot(a) && |key| == f.keySize
    requires Filling(mems, f, mems', f', SegmentOf(a), SlotOf(a), Slot(key, value))
    ensures Inv(t[key := a], mems', f') && View(t[key := a], f') == View(t, f)[key := value] && t[key := a] != t
    ensures Unused(t, a) && Live(mems', a) && Flag(a) == SEGMENT_SLOT
    ensures key in t ==>
              Unused(t[key := a], t[key]) && Live(mems', t[key]) && IsSlot(t[key]) && Flag(t[key]) == SEGMENT_SLOT
    ensures Conserved(t, mems, f) ==> ConservedBut(t[key := a], mems', f', if key in t then Some(t[key]) else None)
  {
    var id, slot := SegmentOf(a), SlotOf(a);
    InvParts(t, mems, f);
    InRange(mems[id]);
    AppendedIsConsistent(mems[id]);
    CursorIsSpared(t, mems, f, id);
    hide Bitmap.IsSet, Bitmap.Set, SegmentOf, SlotOf, Flag, EncodeSlot, Consistent, Inv, RecoveredTable;
    assert Unused(t, a) by { SparesIsUnused(t, id, slot, mems[id].bitmap, a); }
    InstallNew(t, mems', f', id, slot, key, value);
    if Conserved(t, mems, f) {
      ConservedFill(t, mems, f, id, key, value);
    }
    if key in t {
      EntryParts(t, mems', f', key);
      ReplacedIsUnused(t, mems', f', key, a);
    }
  }

  lemma StillConserved(t: Table, mems: Mems, f: Files, d: Files, leak: Option<U64>)
    requires d.segs == f.segs
    ensures ConservedBut(t, mems, f, leak) ==> ConservedBut(t, mems, d, leak)
  {
    hide ConservedBut;
    if ConservedBut(t, mems, f, leak) {
      ConservedSameSegs(t, mems, f, d, leak);
    }
  }

  lemma UndonePhase(t: Table, mems: Mems, f: Files, key: Key, a: U64)
    requires Inv(t, mems, f)
    ensures ConservedBut(t[key := a], mems, f, if key in t then Some(t[key]) else None) ==>
              ConservedBut(t, mems, f, Some(a))
  {
    hide Inv, ConservedBut;
    InvParts(t, mems, f);
    if ConservedBut(t[key := a], mems, f, if key in t then Some(t[key]) else None) {
      ConservedUndone(t, mems, f, key, a);
    }
  }

  lemma SparesIsUnused(t: Table, id: SegId, slot: nat, b: Bytes, a: U64)
    requires Spares(t, id, slot, b) && id == SegmentOf(a) && slot == SlotOf(a)
    ensures Unused(t, a)
  {
  }

  lemma LeftBehind(t: Table, key: Key, a: U64, mems: Mems, mems': Mems, f: Files, freed: Status)
    requires Live(mems, a) && (if freed == Ok then SlotFree(f, a) else mems' == mems)
    ensures RecoveredTable(f) == t[key := a] ==> RecordLeft(t, key, mems', f)
  {
    hide RecoveredTable, SegmentOf, SlotOf, Bitmap.IsSet, IsSlot;
    if RecoveredTable(f) == t[key := a] {
      assert RecoveredTable(f)[key] == a;
      if freed == Ok {
        assert !Stored(f, key, a);
      }
      assert RecoveredTable(f) == t[key := a] && (Live(mems', a) || !Recoverable(f));
    }
  }

  lemma EntryParts(t: Table, mems: Mems, f: Files, key: Key)
    requires Inv(t, mems, f) && key in t
    ensures IsSlot(t[key]) && Flag(t[key]) == SEGMENT_SLOT && Live(mems, t[key]) && Stored(f, key, t[key])
  {
    assert Stored(f, key, t[key]);
  }

  /** Once a key has moved, nothing names its former slot. */
  lemma ReplacedIsUnused(t: Table, mems: Mems, f: Files, key: Key, a: U64)
    requires Inv(t, mems, f) && key in t && Unused(t, a)
    ensures Unused(t[key := a], t[key])
  {
    hide Flag, SegmentOf, SlotOf, EncodeSlot, Bitmap.IsSet, Consistent, Store.Mounted;
    var t' := t[key := a];
    forall k | k in t' && SegmentOf(t'[k]) == SegmentOf(t[key])
      ensures SlotOf(t'[k]) != SlotOf(t[key])
    {
      if k != key {
        assert Stored(f, k, t[k]) && Stored(f, key, t[key]);
      }
    }
  }

  /** While the change is being logged, recovery finds the old state or the new one. */
  lemma LogPhase(t: Table, t': Table, mems: Mems, f: Files, g: Files, h: Files,
                 seen: iset<Files>, seen': iset<Files>, landed: bool)
    requires Inv(t, mems, g) && Inv(t', mems, g) && h.segs == g.segs && h.keySize == g.keySize
    requires View(t, g) == View(t, f)
    requires RecoveredTable(f) == t ==> AllAtomic(seen, t, View(t, f), t, View(t, f))
    requires RecoveredTable(f) == t ==>
               forall d :: d in seen' && d !in seen ==> Logging(g, d, t, if landed then t' else t)
    ensures Inv(t, mems, h) && Inv(t', mems, h)
    ensures View(t, h) == View(t, f) && View(t', h) == View(t', g)
    ensures RecoveredTable(f) == t ==>
              if landed then AllAtomic(seen', t, View(t, f), t', View(t', g))
              else AllAtomic(seen', t, View(t, f), t, View(t, f))
  {
    hide Inv, View, RecoveredTable, AllStored, ConservedBut;
    InvSameSegs(t, mems, g, h);
    InvSameSegs(t', mems, g, h);
    if RecoveredTable(f) == t {
      forall d | d in seen'
        ensures if landed then Atomic(d, t, View(t, f), t', View(t', g)) else Atomic(d, t, View(t, f), t, View(t, f))
      {
        if d !in seen {
          InvSameSegs(t, mems, g, d);
          InvSameSegs(t', mems, g, d);
          InvParts(t, mems, d);
          InvParts(t', mems, d);
        }
      }
    }
  }

  /** Dropping an entry. */
  lemma RemovePhase(t: Table, mems: Mems, f: Files, key: Key)
    requires Inv(t, mems, f) && key in t
    ensures Inv(t - {key}, mems, f) && View(t - {key}, f) == View(t, f) - {key} && t - {key} != t
    ensures Unused(t - {key}, t[key]) && Live(mems, t[key]) && IsSlot(t[key]) && Flag(t[key]) == SEGMENT_SLOT
    ensures Conserved(t, mems, f) ==> ConservedBut(t - {key}, mems, f, Some(t[key]))
  {
    hide View, Store.Mounted, ConservedBut;
    RemoveKey(t, mems, f, key);
    EntryParts(t, mems, f, key);
    DroppedIsUnused(t, mems, f, key);
    if Conserved(t, mems, f) {
      ConservedRemove(t, mems, f, key);
    }
  }

  lemma DroppedIsUnused(t: Table, mems: Mems, f: Files, key: Key)
    requires Inv(t, mems, f) && key in t
    ensures Unused(t - {key}, t[key])
  {
    hide Flag, SegmentOf, SlotOf, EncodeSlot, Bitmap.IsSet, Consistent, Store.Mounted;
    forall k | k in t && k != key && SegmentOf(t[k]) == SegmentOf(t[key])
      ensures SlotOf(t[k]) != SlotOf(t[key])
    {
      assert Stored(f, k, t[k]) && Stored(f, key, t[key]);
    }
  }

  lemma AtomicMore(seen: iset<Files>, t: Table, v: map<Key, Value>, t': Table, v': map<Key, Value>)
    ensures AllAtomic(seen, t, v, t, v) ==> AllAtomic(seen, t, v, t', v')
  {
    hide Recoverable, RecoveredTable, View;
  }

  /** Every state of a checkpoint of the recovered table recovers that table. */
  lemma SnapshotPhase(t: Table, mems: Mems, f: Files, seen: iset<Files>)
    requires Inv(t, mems, f) && RecoveredTable(f) == t
    requires forall d :: d in seen ==>
               d == f || d == f.(snapshot := t) || d == f.(snapshot := t, wal := [])
    ensures AllAtomic(seen, t, View(t, f), t, View(t, f))
  {
    hide Inv, View, RecoveredTable, AllStored;
    SnapshotRecovers(f, t);
    forall d | d in seen
      ensures Atomic(d, t, View(t, f), t, View(t, f))
    {
      InvSameSegs(t, mems, f, d);
      InvParts(t, mems, d);
    }
  }

  /** Freeing the slot that the change made unused. */
  lemma FreePhase(t: Table, t': Table, v: map<Key, Value>, mems: Mems, g: Files, a: U64, s: Status,
                  mems': Mems, h: Files, seen: iset<Files>, seen': iset<Files>)
    requires Inv(t', mems, g) && Harmless(g, h, t') && IsSlot(a) && Live(mems, a) && SameSlots(g, h)
    requires forall d :: d in seen' ==> d in seen || Harmless(g, d, t')
    requires s == Ok ==> Occupied(mems, SegmentOf(a), SlotOf(a))
    requires s == Ok ==> mems' == mems[SegmentOf(a) := Freed(mems[SegmentOf(a)], SlotOf(a))]
    ensures View(t', h) == View(t', g) && RecoveredTable(h) == RecoveredTable(g) && h.keySize == g.keySize &&
            h.wal == g.wal
    ensures RecoveredTable(g) == t' && AllAtomic(seen, t, v, t', View(t', g)) ==>
              AllAtomic(seen', t, v, t', View(t', g))
    ensures s == Ok && ConservedBut(t', mems, g, Some(a)) ==> Conserved(t', mems', h)
  {
    hide View, RecoveredTable, AllStored, IsSlot, Live, SameSlots, Freed;
    InvParts(t', mems, g);
    if s == Ok && ConservedBut(t', mems, g, Some(a)) {
      ConservedFree(t', mems, g, a, h);
    }
  }

  lemma FreeKeepsOne(c: Classes, mems: Mems, mems': Mems, id: SegId, i: nat)
    requires mems' == mems || (Occupied(mems, id, i) && mems' == mems[id := Freed(mems[id], i)])
    ensures OneAppending(c, mems) ==> OneAppending(c, mems')
  {
  }

  /** No entry names the slot that `a` names. */
  ghost predicate Unused(t: Table, a: U64) {
    forall k :: k in t && SegmentOf(t[k]) == SegmentOf(a) ==> SlotOf(t[k]) != SlotOf(a)
  }

  lemma NotLive(mems: Mems, a: U64)
    requires SegmentOf(a) !in mems
    ensures !Live(mems, a)
  {
  }

  /** All that freeing an unused slot, in any of its outcomes, does. */
  lemma FreeOutcome(t: Table, mems: Mems, f: Files, a: U64, s: Status,
                    mems': Mems, f': Files, seen: iset<Files>, seen': iset<Files>)
    requires Inv(t, mems, f) && SegmentOf(a) in mems && Unused(t, a)
    requires s == Ok || s == IOError <==> Occupied(mems, SegmentOf(a), SlotOf(a))
    requires s == Ok ==> mems' == mems[SegmentOf(a) := Freed(mems[SegmentOf(a)], SlotOf(a))]
    requires s != Ok ==> mems' == mems
    requires if s == Ok || s == IOError
             then BitmapTouched(f, f', SegmentOf(a), Bitmap.Clear(mems[SegmentOf(a)].bitmap, SlotOf(a))) &&
                  (forall d :: d in seen' && d !in seen ==>
                     BitmapTouched(f, d, SegmentOf(a), Bitmap.Clear(mems[SegmentOf(a)].bitmap, SlotOf(a))))
             else f' == f && seen' == seen
    requires s == Ok ==> SegmentOf(a) in f'.segs && f'.segs[SegmentOf(a)].bitmap == mems'[SegmentOf(a)].bitmap
    ensures Inv(t, mems', f') && Harmless(f, f', t) && SameSlots(f, f')
    ensures s == Ok ==> SlotFree(f', a)
    ensures Live(mems, a) ==> s == Ok || s == IOError
    ensures forall d :: d in seen' ==> d in seen || Harmless(f, d, t)
    ensures forall written :: LogClean(f, written) ==> LogClean(f', written)
  {
    hide Inv, BitmapTouched, Touched, Harmless, LogClean, Store.Mounted, Consistent, StateOf, SegmentOf, SlotOf,
         Bitmap.IsSet, Bitmap.Clear, Live;
    if s == Ok {
      Bitmap.ClearAt(mems[SegmentOf(a)].bitmap, SlotOf(a), SlotOf(a));
    }
    LiveIsOccupied(t, mems, f, a);
    HarmlessNothing(t, mems, f);
    if s == Ok || s == IOError {
      FreeIsFine(t, mems, f, a, f');
      BitmapTouchedShape(f, f', SegmentOf(a), Bitmap.Clear(mems[SegmentOf(a)].bitmap, SlotOf(a)));
      forall d | d in seen' && d !in seen
        ensures Harmless(f, d, t)
      {
        FreeIsFine(t, mems, f, a, d);
      }
    }
    LogUntouched(f, f', t);
  }

  lemma LiveIsOccupied(t: Table, mems: Mems, f: Files, a: U64)
    requires Inv(t, mems, f)
    ensures Live(mems, a) ==> Occupied(mems, SegmentOf(a), SlotOf(a))
  {
    hide SegmentOf, SlotOf, Bitmap.IsSet;
    InvParts(t, mems, f);
    if Live(mems, a) {
      InRange(mems[SegmentOf(a)]);
      FreedIsConsistent(mems[SegmentOf(a)], SlotOf(a));
    }
  }

  lemma FreeIsFine(t: Table, mems: Mems, f: Files, a: U64, d: Files)
    requires Inv(t, mems, f) && Occupied(mems, SegmentOf(a), SlotOf(a)) && Unused(t, a)
    requires BitmapTouched(f, d, SegmentOf(a), Bitmap.Clear(mems[SegmentOf(a)].bitmap, SlotOf(a)))
    ensures Harmless(f, d, t)
    ensures Inv(t, mems, d) && Inv(t, mems[SegmentOf(a) := Freed(mems[SegmentOf(a)], SlotOf(a))], d)
  {
    hide Touched, View, RecoveredTable, Store.Mounted, BitmapTouched, Bitmap.IsSet, Bitmap.Clear, SegmentOf, SlotOf;
    FreeKeeps(t, mems, f, SegmentOf(a), SlotOf(a), d);
    InvIsFormatted(t, mems, d);
    BitmapTouchedShape(f, d, SegmentOf(a), Bitmap.Clear(mems[SegmentOf(a)].bitmap, SlotOf(a)));
  }

  lemma InvParts(t: Table, mems: Mems, f: Files)
    requires Inv(t, mems, f)
    ensures Mounted(mems, f) && AllStored(t, f) && Formatted(f)
    ensures forall s :: s in mems ==> Consistent(mems[s]) && s in f.segs
  {
    InvIsFormatted(t, mems, f);
  }

  lemma HarmlessNothing(t: Table, mems: Mems, f: Files)
    requires Inv(t, mems, f)
    ensures Harmless(f, f, t)
  {
    InvIsFormatted(t, mems, f);
  }

  lemma TouchedIsFine(t: Table, mems: Mems, f: Files, seg: SegId, d: Files)
    requires Inv(t, mems, f) && seg in mems && mems[seg].cursor < mems[seg].total
    requires Touched(f, d, seg, mems[seg].cursor, mems[seg].bitmap)
    ensures Harmless(f, d, t)
  {
    hide Touched, View, RecoveredTable, Store.Mounted;
    AppendKeeps(t, mems, f, seg, d);
    InvIsFormatted(t, mems, d);
    TouchedShape(f, d, seg, mems[seg].cursor, mems[seg].bitmap);
  }

  /** All an insert, in any of its outcomes, does to the invariant and to crash states. */
  lemma InsertOutcome(t: Table, mems: Mems, f: Files, id: SegId, slot: nat, c: Slot, s: Status,
                      mems': Mems, f': Files, seen: iset<Files>, seen': iset<Files>)
    requires Inv(t, mems, f) && id in mems
    requires s == Status.Full <==> mems[id].cursor == mems[id].total
    requires s == Ok ==> Filling(mems, f, mems', f', id, slot, c)
    requires s != Ok ==> mems' == mems
    requires if s == Status.Full then f' == f else Touched(f, f', id, mems[id].cursor, mems[id].bitmap)
    requires if s == Status.Full then seen' == seen
             else SeenTouched(f, seen, seen', id, mems[id].cursor, mems[id].bitmap)
    ensures Inv(t, mems', f') && Harmless(f, f', t)
    ensures s == Ok ==> slot < SLOT_UNIT
    ensures forall d :: d in seen' ==> d in seen || Harmless(f, d, t)
    ensures forall written :: LogClean(f, written) ==> LogClean(f', written)
  {
    InvParts(t, mems, f);
    InRange(mems[id]);
    hide Inv, Touched, Harmless, LogClean, Store.Mounted, Consistent, Appended, Filled;
    if s == Status.Full {
      HarmlessNothing(t, mems, f);
    } else {
      AppendKeeps(t, mems, f, id, f');
      TouchedIsFine(t, mems, f, id, f');
      forall d | d in seen' && d !in seen
        ensures Harmless(f, d, t)
      {
        TouchedIsFine(t, mems, f, id, d);
      }
    }
    LogUntouched(f, f', t);
  }

  lemma LogUntouched(f: Files, d: Files, t: Table)
    requires Harmless(f, d, t)
    ensures forall written :: LogClean(f, written) ==> LogClean(d, written)
  {
    hide GoodBytes, RecordSize;
  }

  /** A log that holds a record is not an empty one. */
  lemma LogNotEmpty(g: Files, written: nat, f: Files, written': nat)
    requires LogClean(g, written + RecordSize(g.keySize))
    ensures g.wal != []
    ensures f.wal == [] ==> RecoveredTable(f) == f.snapshot && (LogClean(f, written') ==> written' == 0)
  {
    hide RecordSize, GoodBytes, RecoveredTable;
    assert |g.wal| >= written + RecordSize(g.keySize);
    if f.wal == [] {
      EmptyLogIsClean(f);
    }
  }

  /** What recovery finds when the table has just been dumped, before and after the log is cut. */
  lemma SnapshotRecovers(f: Files, t: Table)
    ensures RecoveredTable(f.(snapshot := t, wal := [])) == t
    ensures RecoveredTable(f) == t ==> RecoveredTable(f.(snapshot := t)) == t
  {
    hide Replayed, ApplyAll;
    assert Replayed(f.keySize, []) == [] by { EmptyLogIsClean(f.(wal := [])); NothingReplayed(f.keySize); }
    NothingApplied(t);
    ReplayIsIdempotent(f.snapshot, Replayed(f.keySize, f.wal));
  }

  lemma NothingReplayed(keySize: nat)
    ensures Replayed(keySize, []) == []
  {
    hide Decode;
  }

  lemma NothingApplied(t: Table)
    ensures ApplyAll(t, []) == t
  {
  }

  /** A dump of the table before a record, installed under a log that ends in that record. */
  lemma EarlySnapshotRecovers(f: Files, g: Files, t: Table, r: Record)
    requires RecoveredTable(f) == t && SameButWal(f, g)
    requires Replayed(g.keySize, g.wal) == Replayed(f.keySize, f.wal) + [r]
    ensures RecoveredTable(g.(snapshot := t)) == Apply(t, r)
  {
    hide Replayed, Apply, ApplyAll;
    var recs := Replayed(f.keySize, f.wal);
    ReplayIsIdempotent(f.snapshot, recs);
    ApplyOne(t, recs, r);
  }

  /** Any table dumped above a log: recovery takes each key from the one or from the other. */
  lemma SnapshotMixes(f: Files, g: Files, t: Table, r: Record)
    requires SameButWal(f, g) && Replayed(g.keySize, g.wal) == Replayed(f.keySize, f.wal) + [r]
    ensures LoggingMix(f, g.(snapshot := t), RecoveredTable(f), Apply(RecoveredTable(f), r), t)
    ensures LoggingMix(f, g.(snapshot := t, wal := []), RecoveredTable(f), Apply(RecoveredTable(f), r), t)
  {
    hide Replayed, Apply, ApplyAll;
    SnapshotRecovers(g, t);
    var recs := Replayed(f.keySize, f.wal);
    ReplayMixes(f.snapshot, t, recs + [r]);
    ApplyOne(f.snapshot, recs, r);
  }

  lemma InFlightMixes(f: Files, d: Files, r: Record, complete: bool, t: Table)
    requires InFlight(f, d, r, complete)
    ensures LoggingMix(f, d, RecoveredTable(f), Apply(RecoveredTable(f), r), t)
  {
    hide RecoveredTable, Apply;
  }

  lemma AppendMixes(f: Files, g: Files, r: Record, complete: bool, t: Table, seen: iset<Files>, seen': iset<Files>)
    requires InFlight(f, g, r, complete) && forall d :: d in seen' ==> d in seen || InFlight(f, d, r, complete)
    ensures LoggingMix(f, g, RecoveredTable(f), Apply(RecoveredTable(f), r), t)
    ensures forall d :: d in seen' && d !in seen ==>
              LoggingMix(f, d, RecoveredTable(f), Apply(RecoveredTable(f), r), t)
  {
    hide RecoveredTable, Apply, InFlight, LoggingMix;
    InFlightMixes(f, g, r, complete, t);
    forall d | d in seen' && d !in seen
      ensures LoggingMix(f, d, RecoveredTable(f), Apply(RecoveredTable(f), r), t)
    {
      InFlightMixes(f, d, r, complete, t);
    }
  }

  lemma SnapshotKeepsLog(f: Files, d: Files, written: nat)
    requires LogClean(f, written) && d.wal == f.wal && d.keySize == f.keySize
    ensures LogClean(d, written)
  {
  }
}
