/**
 * Restarting after a crash: segments rebuilt from their bitmaps, the index from its snapshot
 * and its log.  Together with the statements about `disk.seen` this closes the circle: what
 * any crash leaves behind, restarting turns into one of the two maps around the operation.
 */
module Recovery {
  import opened Base
  import opened Offset
  import opened WalCodec
  import opened Files
  import opened Disk
  import opened Segment
  import opened Store
  import opened Wal
  import opened Manager
  import opened Index
  import opened Moves
  import Bitmap
  import StateFile

  /** The state of the segments that opening their files rebuilds. */
  function RebuiltMems(f: Files): Mems {
    map s | s in f.segs :: Rebuilt(|f.segs[s].slots|, f.segs[s].bitmap)
  }

  /** What recovery finds satisfies the invariant of a running store. */
  lemma RecoveredInv(f: Files)
    requires Recoverable(f)
    ensures Inv(RecoveredTable(f), RebuiltMems(f), f)
  {
    hide RecoveredTable, Bitmap.IsSet, IsSlot, SegmentOf, SlotOf, Consistent, Rebuilt;
    var t, mems := RecoveredTable(f), RebuiltMems(f);
    forall s | s in f.segs
      ensures Consistent(mems[s]) && mems[s].total == |f.segs[s].slots| && mems[s].bitmap == f.segs[s].bitmap
    {
      RebuiltIsConsistent(|f.segs[s].slots|, f.segs[s].bitmap);
    }
    forall k | k in t
      ensures Live(mems, t[k]) && |k| == f.keySize
    {
      assert Stored(f, k, t[k]);
      var s, i := SegmentOf(t[k]), SlotOf(t[k]);
      RebuiltCovers(f.segs[s], i);
    }
  }

  /** An occupied slot lies below the rebuilt cursor. */
  lemma RebuiltCovers(sf: SegFile, i: nat)
    requires i < |sf.slots| && Bitmap.IsSet(sf.bitmap, i)
    ensures i < Rebuilt(|sf.slots|, sf.bitmap).cursor
  {
    hide Bitmap.IsSet;
    assert !(Rebuilt(|sf.slots|, sf.bitmap).cursor <= i);
  }

  method OpenSegment(disk: Disk, id: SegId) returns (s: Status, seg: Segment)
    requires Formatted(disk.files) && id in disk.files.segs
    modifies disk`faulted
    ensures fresh(seg) && seg.Valid() && seg.id == id && seg.disk == disk
    ensures s == Ok || Failure(s)
    ensures disk.faulted == (old(disk.faulted) || Failure(s))
    ensures s == Ok ==> seg.Mem() == Rebuilt(|disk.files.segs[id].slots|, disk.files.segs[id].bitmap)
  {
    hide Consistent, Rebuilt, Sized;
    var file := disk.files.segs[id];
    seg := new Segment(id, disk, |file.slots|, |file.bitmap|);
    s := seg.Open();
  }

  /** Opens every segment file and registers it. */
  method OpenSegments(disk: Disk) returns (s: Status, mgr: SegmentManager)
    requires Formatted(disk.files)
    modifies disk`faulted
    ensures fresh(mgr) && mgr.Valid() && mgr.disk == disk && mgr.hotSegments == {} && NoDup(mgr.fullOrder)
    ensures forall id :: id in mgr.segments ==> fresh(mgr.segments[id])
    ensures s == Ok || Failure(s)
    ensures disk.faulted == (old(disk.faulted) || Failure(s))
    ensures s == Ok ==> mgr.MemsNow() == RebuiltMems(disk.files) && ByState(mgr.Classification(), mgr.MemsNow())
  {
    hide NoDup, Rebuilt, Sized, Formatted, ByState, SegmentManager.MemsNow, SegmentManager.Valid, Segment.Valid,
         SegmentManager.Classification;
    s := Ok;
    mgr := NoSegments(disk);
    var todo := disk.files.segs.Keys;
    while todo != {}
      invariant s == Ok && todo <= disk.files.segs.Keys && disk.faulted == old(disk.faulted)
      invariant mgr.Valid() && mgr.disk == disk && mgr.hotSegments == {} && NoDup(mgr.fullOrder)
      invariant forall id :: id in mgr.segments ==> fresh(mgr.segments[id])
      invariant mgr.segments.Keys == disk.files.segs.Keys - todo && ByState(mgr.Classification(), mgr.MemsNow())
      invariant mgr.MemsNow() == map s | s in disk.files.segs.Keys - todo :: RebuiltMems(disk.files)[s]
      decreases todo
    {
      var id :| id in todo;
      var seg;
      s, seg := OpenSegment(disk, id);
      if s != Ok {
        return;
      }
      Register(mgr, seg);
      todo := todo - {id};
    }
  }

  method NoSegments(disk: Disk) returns (mgr: SegmentManager)
    ensures fresh(mgr) && mgr.Valid() && mgr.disk == disk && mgr.hotSegments == {} && NoDup(mgr.fullOrder)
    ensures mgr.segments == map[] && mgr.MemsNow() == map[] && ByState(mgr.Classification(), mgr.MemsNow())
  {
    hide Consistent, NoDup, Partition, ByState;
    mgr := new SegmentManager(disk);
    NothingByState(mgr.Classification(), mgr.MemsNow());
    NoDupEmpty(mgr.fullOrder);
  }

  /** Adds a segment under a new id. */
  method Register(mgr: SegmentManager, seg: Segment)
    requires mgr.Valid() && seg.Valid() && seg.disk == mgr.disk && seg.id !in mgr.segments && NoDup(mgr.fullOrder)
    requires ByState(mgr.Classification(), mgr.MemsNow())
    modifies mgr
    ensures mgr.Valid() && mgr.segments == old(mgr.segments)[seg.id := seg] && NoDup(mgr.fullOrder)
    ensures mgr.hotSegments == old(mgr.hotSegments)
    ensures mgr.MemsNow() == old(mgr.MemsNow())[seg.id := seg.Mem()] && ByState(mgr.Classification(), mgr.MemsNow())
  {
    hide Consistent, NoDup, Partition, Added, ByState;
    ghost var c, mems := mgr.Classification(), mgr.MemsNow();
    var _ := mgr.AddSegment(seg);
    AddedByState(c, mems, seg.id, seg.Mem());
    assert mgr.MemsNow() == mems[seg.id := seg.Mem()];
  }

  lemma NothingByState(c: Classes, mems: Mems)
    requires c == Classes({}, {}, {}, []) && mems == map[]
    ensures ByState(c, mems)
  {
  }

  ghost function StatesOf(mems: Mems): map<SegId, SegState> {
    map id | id in mems :: mems[id].state
  }

  /**
   * How the segments are classified when a restart got `loaded` for the saved state: by the
   * file when it was read and parses, and otherwise by their own states.
   */
  ghost predicate ClassifiedBy(c: Classes, mems: Mems, state: Option<Bytes>, loaded: Status) {
    (loaded == Ok || Failure(loaded)) && (state.None? ==> loaded == Ok) &&
    (state.Some? && loaded != IOError ==> (loaded == Corruption <==> StateFile.Parse(state.value) == None)) &&
    if state.Some? && loaded == Ok then
      StateFile.Parse(state.value).Some? &&
      LoadedAs(c, StateFile.Parse(state.value).value, StatesOf(mems))
    else ByState(c, mems)
  }

  /** The saved classification is taken when it can be read and parses, and ignored otherwise. */
  method OpenManager(disk: Disk, state: Option<Bytes>) returns (s: Status, mgr: SegmentManager, ghost loaded: Status)
    requires Formatted(disk.files)
    modifies disk`faulted
    ensures fresh(mgr) && mgr.Valid() && mgr.disk == disk && mgr.hotSegments == {}
    ensures forall id :: id in mgr.segments ==> fresh(mgr.segments[id])
    ensures s == Ok || Failure(s)
    ensures disk.faulted == (old(disk.faulted) || Failure(s) || loaded == IOError)
    ensures s == Ok ==> mgr.MemsNow() == RebuiltMems(disk.files)
    ensures s == Ok ==> ClassifiedBy(mgr.Classification(), mgr.MemsNow(), state, loaded)
  {
    hide ByState, SegmentManager.Valid, SegmentManager.MemsNow, RebuiltMems, NoDup, LoadedAs, Formatted,
         StateFile.Parse, SegmentManager.States, StatesOf;
    s, mgr := OpenSegments(disk);
    loaded := Ok;
    if s == Ok {
      var ignored := mgr.LoadState(state);
      loaded := ignored;
      StatesNow(mgr);
    }
  }

  lemma StatesNow(mgr: SegmentManager)
    ensures mgr.States() == StatesOf(mgr.MemsNow())
  {
  }

  method ApplyRecords(ix: Index, recs: seq<Record>)
    modifies ix`table
    ensures ix.table == ApplyAll(old(ix.table), recs)
  {
    hide Apply;
    var i := 0;
    while i < |recs|
      invariant 0 <= i <= |recs| && ix.table == ApplyAll(old(ix.table), recs[..i])
    {
      assert recs[..i + 1][..i] == recs[..i];
      ix.table := Apply(ix.table, recs[i]);
      i := i + 1;
    }
    assert recs[..i] == recs;
  }

  /**
   * Snapshot, then the log up to its first bad record; the rest of the log is cut off.  The
   * table is rebuilt as it is, also when it names slots that are free or another key's; when
   * it does not, the store is as good as a running one.
   */
  method Open(ix: Index) returns (s: Status)
    requires ix.Wired() && ix.table == map[] && ix.mgr.Valid()
    requires Formatted(ix.disk.files) && ix.mgr.MemsNow() == RebuiltMems(ix.disk.files)
    requires ix.hasSnapshotDir || ix.disk.files.snapshot == map[]
    requires ix.disk.files in ix.disk.seen && !ix.wal.isOpen
    modifies ix`table, ix.wal, ix.disk
    ensures s == Ok || s == IOError
    ensures ix.disk.faulted == (old(ix.disk.faulted) || s == IOError)
    ensures ix.disk.files.keySize == old(ix.disk.files).keySize
    ensures s != Ok ==> !ix.wal.isOpen
    ensures s == Ok ==> ix.table == RecoveredTable(old(ix.disk.files)) && ix.Synced() && ix.wal.isOpen
    ensures s == Ok ==>
              ix.disk.files == Cut(old(ix.disk.files)) && ix.wal.written == |ix.disk.files.wal| &&
              LogClean(ix.disk.files, ix.wal.written)
    ensures s == Ok ==> (ix.Valid() <==> Recoverable(old(ix.disk.files)))
    ensures s == Ok ==> ix.ViewNow() == View(RecoveredTable(old(ix.disk.files)), old(ix.disk.files))
    // A crash during recovery recovers the same.
    ensures forall d :: d in ix.disk.seen ==>
              d in old(ix.disk.seen) || d == old(ix.disk.files) || d == Cut(old(ix.disk.files))
  {
    hide Inv, LogClean, View, RecoveredTable, Recoverable, Replayed, GoodBytes, SegmentManager.Valid,
         SegmentManager.MemsNow, RebuiltMems;
    ghost var f := ix.disk.files;
    if ix.hasSnapshotDir {
      ix.table := ix.disk.files.snapshot;
    }
    var recs, good;
    s, recs, good := Replay(ix.disk);
    ApplyRecords(ix, recs);
    if s != Ok {
      return;
    }
    ReplayedTable(f, recs);
    CutLog(f);
    s := ix.disk.TruncateWal(good);
    if s != Ok {
      return;
    }
    s := ix.wal.Open();
  }

  lemma ReplayedTable(f: Files, recs: seq<Record>)
    requires recs == Replayed(f.keySize, f.wal)
    ensures ApplyAll(f.snapshot, recs) == RecoveredTable(f)
  {
  }

  /** The files with the log cut behind its last good record. */
  function Cut(f: Files): Files {
    f.(wal := f.wal[..GoodBytes(f.keySize, f.wal)])
  }

  /** Cutting leaves a clean log that recovers the same. */
  lemma CutLog(f: Files)
    requires Formatted(f)
    ensures LogClean(Cut(f), |Cut(f).wal|) && RecoveredTable(Cut(f)) == RecoveredTable(f)
    ensures View(RecoveredTable(f), Cut(f)) == View(RecoveredTable(f), f)
    ensures Inv(RecoveredTable(f), RebuiltMems(f), Cut(f)) <==> Recoverable(f)
    ensures Recoverable(f) ==> Recovers(Cut(f), View(RecoveredTable(f), f)) && Recovers(f, View(RecoveredTable(f), f))
  {
    hide Inv, View, Replayed, RebuiltMems, RecordSize;
    var d := Cut(f);
    TruncateIsRepeatable(f.keySize, f.wal);
    assert d.wal[..|d.wal|] == d.wal;
    ViewSameSegs(RecoveredTable(f), f, d);
    if Recoverable(f) {
      RecoveredInv(f);
      InvSameSegs(RecoveredTable(f), RebuiltMems(f), f, d);
      RecoversSame(RecoveredTable(f), RebuiltMems(f), d, View(RecoveredTable(f), f));
    }
    if Inv(RecoveredTable(f), RebuiltMems(f), d) {
      InvParts(RecoveredTable(f), RebuiltMems(f), d);
      StoredSameSegs(RecoveredTable(f), d, f);
    }
  }

  lemma ViewSameSegs(t: Table, f: Files, d: Files)
    requires d.segs == f.segs
    ensures View(t, d) == View(t, f)
  {
    hide SegmentOf, SlotOf;
  }

  lemma StoredSameSegs(t: Table, f: Files, d: Files)
    requires AllStored(t, f) && d.segs == f.segs
    ensures AllStored(t, d)
  {
    hide Bitmap.IsSet, IsSlot, SegmentOf, SlotOf;
    forall k | k in t
      ensures Stored(d, k, t[k])
    {
      assert Stored(f, k, t[k]);
    }
  }

  /**
   * A complete restart over whatever files a crash left.  The saved classification of the
   * segments may be missing, stale or corrupt: it cannot affect the map.  `loaded` is what
   * reading it gave.
   */
  method Restart(disk: Disk, state: Option<Bytes>, valueSize: nat, checkpointBytes: nat, hasSnapshotDir: bool)
      returns (s: Status, ix: Index, ghost loaded: Status)
    requires Formatted(disk.files) && (hasSnapshotDir || disk.files.snapshot == map[])
    modifies disk
    ensures fresh(ix) && fresh(ix.mgr) && fresh(ix.wal)
    ensures forall id :: id in ix.mgr.segments ==> fresh(ix.mgr.segments[id])
    ensures ix.disk == disk && ix.valueSize == valueSize && disk.files.keySize == old(disk.files).keySize
    ensures ix.checkpointBytes == checkpointBytes && ix.hasSnapshotDir == hasSnapshotDir
    ensures s == Ok || Failure(s)
    ensures disk.faulted == (old(disk.faulted) || Failure(s) || loaded == IOError)
    ensures s == Ok ==> ix.table == RecoveredTable(old(disk.files)) && ix.mgr.MemsNow() == RebuiltMems(old(disk.files))
    // The segments keep the classes they were saved with, if they were, and that file can be read.
    ensures s == Ok ==> ClassifiedBy(ix.mgr.Classification(), ix.mgr.MemsNow(), state, loaded)
    ensures s == Ok ==> disk.files == Cut(old(disk.files)) && ix.wal.written == |disk.files.wal|
    ensures s == Ok ==> ix.Synced() && ix.wal.isOpen && ix.mgr.hotSegments == {}
    ensures s == Ok ==> (ix.Valid() <==> Recoverable(old(disk.files)))
    ensures s == Ok ==> ix.ViewNow() == View(RecoveredTable(old(disk.files)), old(disk.files))
    ensures Recoverable(old(disk.files)) ==>
              AllRecover(disk.seen, View(RecoveredTable(old(disk.files)), old(disk.files)))
  {
    hide Inv, LogClean, View, RecoveredTable, Recoverable, Recovers, Replayed, GoodBytes, SegmentManager.Valid,
         SegmentManager.MemsNow, RebuiltMems, NoDup, Formatted, Cut, ClassifiedBy;
    disk.Begin();
    ghost var f := disk.files;
    CutLog(f);
    var wal := new WalWriter(disk);
    var mgr;
    s, mgr, loaded := OpenManager(disk, state);
    ix := new Index(disk, mgr, wal, valueSize, checkpointBytes, hasSnapshotDir);
    if s != Ok {
      return;
    }
    s := Open(ix);
  }
}
