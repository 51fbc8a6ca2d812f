/**
 * Whole runs of a serialized client.  The store behaves as a plain map, and a crash in the
 * middle of any operation leaves files from which a restart rebuilds the map before that
 * operation or the map after it.
 */
module Runs {
  import opened Base
  import opened Offset
  import opened WalCodec
  import opened Files
  import opened Disk
  import opened Store
  import opened Wal
  import opened Manager
  import opened Allocation
  import opened Index
  import opened Conservation
  import opened Moves
  import opened Compaction
  import opened Passes
  import opened Recovery

  datatype Op =
    | PutOp(key: Key, value: Value)
    | DeleteOp(key: Key)
    | GetOp(key: Key)
    | CheckpointOp
    | CompactOp(threshold: real)

  datatype Outcome = Outcome(status: Status, value: Value)

  /** The map after an operation with the given outcome. */
  function Next(v: map<Key, Value>, op: Op, o: Outcome): map<Key, Value> {
    match op
    case PutOp(key, value) => if o.status == Ok then v[key := value] else v
    case DeleteOp(key) => if o.status == Ok then v - {key} else v
    case _ => v
  }

  function StateAt(v: map<Key, Value>, ops: seq<Op>, outs: seq<Outcome>, n: nat): map<Key, Value>
    requires n <= |ops| && n <= |outs|
  {
    if n == 0 then v else Next(StateAt(v, ops, outs, n - 1), ops[n - 1], outs[n - 1])
  }

  /** What a client of a map may see; only storage trouble may replace an answer. */
  predicate Agrees(v: map<Key, Value>, op: Op, o: Outcome, valueSize: nat) {
    match op
    case PutOp(_, value) => o.status == InvalidArgument <==> |value| != valueSize
    case DeleteOp(key) =>
      (o.status == NotFound <==> key !in v) && o.status in {Ok, NotFound, IOError}
    case GetOp(key) =>
      (o.status == NotFound <==> key !in v) && o.status in {Ok, NotFound, IOError, Corruption} &&
      (o.status == Ok ==> o.value == v[key])
    case _ => true
  }

  predicate WellSized(op: Op, keySize: nat) {
    match op
    case PutOp(key, _) => |key| == keySize
    case DeleteOp(key) => |key| == keySize
    case GetOp(key) => |key| == keySize
    case _ => true
  }

  /**
   * What an operation met on its way: whether a request failed, a write to the log, or one of
   * a bitmap.  For a compaction, whether the log has the record of every slot it moved, whether it has those
   * from the segments it emptied, how many it moved, and which it emptied.
   */
  datatype Mark = Mark(failed: bool, logFailed: bool, flushFailed: bool, kept: bool, safe: bool, moved: nat,
                       emptied: set<SegId>)

  const UNMARKED: Mark := Mark(false, false, false, true, true, 0, {})

  /** The state of a store between two operations, marked by the one that led here. */
  datatype Snap = Snap(table: Table, mems: Mems, files: Files, classes: Classes, hot: set<SegId>,
                       isOpen: bool, written: nat, mark: Mark)

  ghost function Now(ix: Index, mark: Mark): Snap
    reads ix, ix.mgr, ix.mgr.segments.Values, ix.wal, ix.disk
  {
    Snap(ix.table, ix.mgr.MemsNow(), ix.disk.files, ix.mgr.Classification(), ix.mgr.hotSegments,
         ix.wal.isOpen, ix.wal.written, mark)
  }

  /** The segments a compaction from here would choose. */
  ghost function ChosenIn(b: Snap, threshold: real): (r: set<SegId>)
    ensures r <= b.mems.Keys
  {
    Chosen(b.classes.full - b.hot, b.mems, threshold)
  }

  function PointOf(b: Snap): Point {
    Point(b.table, b.mems, b.files)
  }

  /** Every slot a compaction from here would move has an entry. */
  ghost predicate Movable(b: Snap, threshold: real) {
    AllOwned(PointOf(b), ChosenIn(b, threshold))
  }

  /** Moving the slots a compaction from here would move needs no checkpoint. */
  ghost predicate Fits(ix: Index, b: Snap, op: Op) {
    op.CompactOp? ==> !Reaches(ix, b.written, Cost(b, op), b.files.keySize)
  }

  /** Every refusal has its reason in the segments, and every success the effect it is for. */
  ghost predicate Justified(ix: Index, b: Snap, op: Op, s: Status, a: Snap) {
    match op
    case PutOp(_, _) =>
      s in {Ok, InvalidArgument, NoSpace, Status.Full, IOError} &&
      (s in {NoSpace, Status.Full} && SomeRoom(b.classes, b.mems) ==> TwoFilled(b.classes, b.mems))
    case CheckpointOp =>
      s in {Ok, InvalidArgument, IOError} && (s == InvalidArgument <==> !ix.hasSnapshotDir) &&
      (s == Ok ==> a.files.snapshot == a.table && (b.isOpen ==> a.files.wal == []))
    case CompactOp(threshold) =>
      s in {Ok, NoSpace, Status.Full, IOError, Corruption} &&
      (s == Ok ==> a.mark.emptied == ChosenIn(b, threshold)) &&
      (s in {NoSpace, Status.Full} ==> a.mark.emptied != ChosenIn(b, threshold)) &&
      (s == NoSpace ==> a.classes.idle == {} && a.classes.appending == {}) &&
      (s == Status.Full && !a.mark.failed ==> SomeFilled(a.classes, a.mems)) &&
      (!a.mark.failed && Roomy(b.classes, b.mems, Cost(b, op)) ==> s == Ok)
    case _ => true
  }

  /**
   * What the marks of a step mean.  A compaction that started with an open log misses records
   * only if a log write failed or a checkpoint was within reach, and it matters only for the
   * segments it emptied.  The counters of the segments tell which these are and how many slots
   * were moved, and below the threshold the size of the log tells whether a record is missing.
   */
  ghost predicate Marked(ix: Index, b: Snap, op: Op, s: Status, a: Snap) {
    var m := a.mark;
    Justified(ix, b, op, s, a) &&
    (m.kept ==> m.safe) && (b.isOpen && Fits(ix, b, op) && (!m.failed || !m.logFailed) ==> m.kept) &&
    if op.CompactOp? then
      m.emptied <= ChosenIn(b, op.threshold) && Reclaimed(b.mems, a.mems, m.emptied) &&
      Moved(b.mems, a.mems, m.moved, m.emptied) &&
      (b.isOpen && Fits(ix, b, op) ==>
         (m.kept <==> !m.logFailed) &&
         (m.kept <==> a.written == b.written + LogBytes(m.moved, RecordSize(b.files.keySize)))) &&
      (b.isOpen && !m.logFailed && !Reaches(ix, b.written, TotalUsed(b.mems, m.emptied), b.files.keySize) ==> m.safe)
    else m.kept && m.moved == 0 && m.emptied == {}
  }

  /** The operation wrote its record, could not sync it, and reported failure. */
  ghost predicate UnsyncedStep(b: Snap, op: Op, o: Outcome, a: Snap) {
    (op.PutOp? || op.DeleteOp?) && o.status == IOError && a.written != b.written
  }

  /**
   * A step after which a restart still rebuilds the table.  Failed requests do no harm, except
   * an unsynced record and a missing record of a moved slot.
   */
  ghost predicate Covered(b: Snap, op: Op, o: Outcome, a: Snap) {
    match op
    case PutOp(_, _) => b.isOpen && !UnsyncedStep(b, op, o, a)
    case DeleteOp(_) => b.isOpen && !UnsyncedStep(b, op, o, a)
    case CompactOp(threshold) => Movable(b, threshold) && a.mark.kept
    case _ => true
  }

  /**
   * A step whose crash states all recover the map before or after it.  A compaction may miss
   * records, too, as long as the segments they come from have not been emptied.
   */
  ghost predicate Guarded(b: Snap, op: Op, o: Outcome, a: Snap) {
    if op.CompactOp? then Movable(b, op.threshold) && (a.mark.kept || a.mark.safe) else Covered(b, op, o, a)
  }

  /** A step that loses no slot: no bitmap write failed, and a compaction found room for what it moved. */
  predicate Keeping(op: Op, o: Outcome, m: Mark) {
    match op
    case PutOp(_, _) => !m.failed || !m.flushFailed
    case DeleteOp(_) => !m.failed || !m.flushFailed
    case CompactOp(_) => o.status == Ok || o.status == NoSpace
    case _ => true
  }

  ghost predicate AllRecoverEither(seen: iset<Files>, v: map<Key, Value>, v': map<Key, Value>) {
    forall d :: d in seen ==> Recovers(d, v) || Recovers(d, v')
  }

  ghost predicate NoLoss(ix: Index)
    reads ix, ix.mgr, ix.mgr.segments.Values, ix.disk
  {
    Conserved(ix.table, ix.mgr.MemsNow(), ix.disk.files)
  }

  /** At most one segment is appending, and idle ones are empty. */
  ghost predicate Tidy(ix: Index)
    reads ix, ix.mgr, ix.mgr.segments.Values
  {
    OneAppending(ix.mgr.Classification(), ix.mgr.MemsNow())
  }

  /** A store whose segments are all idle and have slots starts tidy. */
  lemma AllIdleIsTidy(ix: Index)
    requires ix.mgr.appendingSet == {}
    requires forall id :: id in ix.mgr.segments ==> ix.mgr.segments[id].total > 0 && ix.mgr.segments[id].cursor == 0
    ensures Tidy(ix)
  {
  }

  /** How many records an operation may log. */
  ghost function Cost(b: Snap, op: Op): nat {
    match op
    case PutOp(_, _) => 1
    case DeleteOp(_) => 1
    case CompactOp(threshold) => TotalUsed(b.mems, ChosenIn(b, threshold))
    case _ => 0
  }

  /** Forgets or restores what is known about failed requests. */
  ghost method SetFault(ix: Index, faulted: bool, logFaulted: bool, flushFaulted: bool)
    requires ix.Valid()
    modifies ix.disk`faulted, ix.disk`logFaulted, ix.disk`flushFaulted
    ensures ix.Valid() && ix.disk.faulted == faulted && ix.disk.logFaulted == logFaulted
    ensures ix.disk.flushFaulted == flushFaulted
    ensures ix.ViewNow() == old(ix.ViewNow()) && ix.Synced() == old(ix.Synced()) && NoLoss(ix) == old(NoLoss(ix))
  {
    hide Inv, LogClean, SegmentManager.Valid, SegmentManager.MemsNow, RecoveredTable, ConservedBut;
    ix.disk.faulted, ix.disk.logFaulted, ix.disk.flushFaulted := faulted, logFaulted, flushFaulted;
  }

  /** From here on the states of the files are collected anew. */
  ghost method BeginSeen(ix: Index)
    requires ix.Valid()
    modifies ix.disk`seen
    ensures ix.Valid() && ix.ViewNow() == old(ix.ViewNow()) && Now(ix, UNMARKED) == old(Now(ix, UNMARKED))
    ensures ix.Synced() == old(ix.Synced()) && NoLoss(ix) == old(NoLoss(ix))
    ensures ix.Synced() ==> AllRecoverEither(ix.disk.seen, ix.ViewNow(), ix.ViewNow())
  {
    hide Recovers, RecoveredTable, View, SegmentManager.MemsNow, Index.Valid, ConservedBut;
    BeginRun(ix);
  }

  ghost method Begin(ix: Index)
    requires ix.Valid()
    modifies ix.disk
    ensures ix.Valid() && ix.ViewNow() == old(ix.ViewNow()) && ix.disk.files == old(ix.disk.files)
    ensures !ix.disk.faulted && !ix.disk.logFaulted && !ix.disk.flushFaulted
    ensures ix.Synced() == old(ix.Synced()) && NoLoss(ix) == old(NoLoss(ix))
    ensures ix.Synced() ==> AllRecoverEither(ix.disk.seen, ix.ViewNow(), ix.ViewNow())
  {
    hide RecoveredTable, View, SegmentManager.MemsNow, Index.Valid, ConservedBut, AllRecoverEither;
    BeginSeen(ix);
    SetFault(ix, false, false, false);
  }

  method ExecPut(ix: Index, key: Key, value: Value) returns (s: Status)
    requires ix.Valid() && |key| == ix.disk.files.keySize
    modifies ix`table, ix.mgr, ix.mgr.segments.Values, ix.wal, ix.disk
    ensures ix.Valid() && ix.mgr.segments == old(ix.mgr.segments) && ix.disk.files.keySize == old(ix.disk.files).keySize
    ensures Failure(s) ==> ix.disk.faulted
    ensures s == InvalidArgument <==> |value| != ix.valueSize
    ensures Justified(ix, old(Now(ix, UNMARKED)), PutOp(key, value), s, Now(ix, UNMARKED))
    ensures ix.ViewNow() == if s == Ok then old(ix.ViewNow())[key := value] else old(ix.ViewNow())
    ensures old(Tidy(ix)) ==> Tidy(ix) && s != Status.Full
    ensures old(Tidy(ix)) && s == NoSpace ==> old(NoRoom(ix.mgr.Classification(), ix.mgr.MemsNow()))
    ensures old(Tidy(ix)) && s == Ok ==> !old(NoRoom(ix.mgr.Classification(), ix.mgr.MemsNow()))
    ensures old(NoLoss(ix)) && (!ix.disk.faulted || !ix.disk.flushFaulted) ==> NoLoss(ix)
    ensures ix.wal.isOpen ==> old(ix.wal.isOpen)
    ensures old(ix.wal.isOpen) && !ix.disk.faulted ==>
              ix.wal.isOpen && ix.wal.written <= old(ix.wal.written) + RecordSize(old(ix.disk.files).keySize)
    ensures old(ix.Synced()) && old(ix.wal.isOpen) && !(s == IOError && ix.wal.written != old(ix.wal.written)) ==>
              ix.Synced() && AllRecoverEither(ix.disk.seen, old(ix.ViewNow()), ix.ViewNow())
  {
    hide Inv, LogClean, View, RecoveredTable, Recovers, ConservedBut, SegmentManager.Valid, SegmentManager.MemsNow,
         Index.Valid, OneAppending, NoRoom, NoDup, AllAtomic, AllRecoverEither, AllRecover, RecordSize, Logged,
         RecordLeft, SomeRoom, TwoFilled;
    ghost var t, v := ix.table, ix.ViewNow();
    s := ix.Put(key, value);
    EitherOf(ix.disk.seen, t, v, ix.table, ix.ViewNow());
  }

  method ExecDelete(ix: Index, key: Key) returns (s: Status)
    requires ix.Valid() && |key| == ix.disk.files.keySize
    modifies ix`table, ix.mgr.segments.Values, ix.wal, ix.disk
    ensures ix.Valid() && ix.disk.files.keySize == old(ix.disk.files).keySize
    ensures s == Ok || s == NotFound || s == IOError
    ensures Failure(s) ==> ix.disk.faulted
    ensures s == NotFound <==> key !in old(ix.ViewNow())
    ensures ix.ViewNow() == if s == Ok then old(ix.ViewNow()) - {key} else old(ix.ViewNow())
    ensures old(Tidy(ix)) ==> Tidy(ix)
    ensures old(NoLoss(ix)) && (!ix.disk.faulted || !ix.disk.flushFaulted) ==> NoLoss(ix)
    ensures ix.wal.isOpen ==> old(ix.wal.isOpen)
    ensures old(ix.wal.isOpen) && !ix.disk.faulted ==>
              ix.wal.isOpen && ix.wal.written <= old(ix.wal.written) + RecordSize(old(ix.disk.files).keySize)
    ensures old(ix.Synced()) && old(ix.wal.isOpen) && !(s == IOError && ix.wal.written != old(ix.wal.written)) ==>
              ix.Synced() && AllRecoverEither(ix.disk.seen, old(ix.ViewNow()), ix.ViewNow())
  {
    hide Inv, LogClean, View, RecoveredTable, Recovers, ConservedBut, SegmentManager.Valid, SegmentManager.MemsNow,
         Index.Valid, OneAppending, NoRoom, NoDup, AllAtomic, AllRecoverEither, AllRecover, RecordSize, Logged;
    ghost var t, v := ix.table, ix.ViewNow();
    ViewDomain(t, ix.disk.files);
    s := ix.Delete(key);
    EitherOf(ix.disk.seen, t, v, t - {key}, v - {key});
    EitherOf(ix.disk.seen, t, v, t, v);
  }

  method ExecGet(ix: Index, key: Key) returns (s: Status, value: Value)
    requires ix.Valid()
    modifies ix.disk`faulted
    ensures ix.Valid() && ix.ViewNow() == old(ix.ViewNow())
    ensures s == Ok || s == NotFound || Failure(s)
    ensures Failure(s) ==> ix.disk.faulted
    ensures s == NotFound <==> key !in ix.ViewNow()
    ensures s == Ok ==> value == ix.ViewNow()[key]
    ensures ix.Synced() == old(ix.Synced()) && NoLoss(ix) == old(NoLoss(ix))
  {
    hide View, RecoveredTable, ConservedBut, SegmentManager.MemsNow, Index.Valid;
    ViewDomain(ix.table, ix.disk.files);
    s, value := ix.Get(key, ix.valueSize);
  }

  method ExecCheckpoint(ix: Index) returns (s: Status)
    requires ix.Valid()
    modifies ix.wal, ix.disk
    ensures ix.Valid() && ix.disk.files.keySize == old(ix.disk.files).keySize && ix.ViewNow() == old(ix.ViewNow())
    ensures Failure(s) ==> ix.disk.faulted
    ensures Justified(ix, old(Now(ix, UNMARKED)), CheckpointOp, s, Now(ix, UNMARKED))
    ensures old(NoLoss(ix)) ==> NoLoss(ix)
    ensures ix.wal.isOpen ==> old(ix.wal.isOpen)
    ensures old(ix.wal.isOpen) && !ix.disk.faulted ==> ix.wal.isOpen && ix.wal.written <= old(ix.wal.written)
    ensures old(ix.Synced()) ==>
              ix.Synced() && AllRecoverEither(ix.disk.seen, old(ix.ViewNow()), ix.ViewNow())
  {
    hide Inv, LogClean, View, RecoveredTable, Recovers, ConservedBut, SegmentManager.Valid, SegmentManager.MemsNow,
         Index.Valid, OneAppending, NoRoom, NoDup, AllAtomic, AllRecoverEither, AllRecover, LogAgrees;
    ghost var t, v := ix.table, ix.ViewNow();
    s := ix.Checkpoint();
    EitherOf(ix.disk.seen, t, v, t, v);
  }

  method ExecCompact(ix: Index, threshold: real) returns (s: Status, ghost mark: Mark)
    requires ix.Valid() && !ix.disk.logFaulted
    modifies ix`table, ix.mgr, ix.mgr.segments.Values, ix.wal, ix.disk
    ensures ix.Valid() && ix.mgr.segments == old(ix.mgr.segments) && ix.disk.files.keySize == old(ix.disk.files).keySize
    ensures Failure(s) ==> ix.disk.faulted
    ensures mark.failed == ix.disk.faulted && mark.logFailed == ix.disk.logFaulted
    ensures mark.flushFailed == ix.disk.flushFaulted
    ensures Marked(ix, old(Now(ix, UNMARKED)), CompactOp(threshold), s, Now(ix, mark))
    ensures ix.ViewNow() == old(ix.ViewNow())
    ensures old(Tidy(ix)) ==> Tidy(ix)
    ensures old(NoLoss(ix)) && (s == Ok || s == NoSpace) ==> NoLoss(ix)
    ensures ix.wal.isOpen ==> old(ix.wal.isOpen)
    ensures old(ix.wal.isOpen) && Fits(ix, old(Now(ix, UNMARKED)), CompactOp(threshold)) ==>
              ix.wal.isOpen &&
              ix.wal.written <= old(ix.wal.written) +
                                LogBytes(old(LiveSlots(ix, threshold)), RecordSize(old(ix.disk.files).keySize))
    ensures old(ix.Synced()) && Movable(old(Now(ix, UNMARKED)), threshold) ==>
              (mark.kept ==> ix.Synced()) &&
              (mark.kept || mark.safe ==> AllRecoverEither(ix.disk.seen, old(ix.ViewNow()), ix.ViewNow()))
  {
    hide Inv, LogClean, View, RecoveredTable, Recovers, ConservedBut, SegmentManager.Valid, SegmentManager.MemsNow,
         Index.Valid, OneAppending, NoRoom, NoDup, AllAtomic, AllRecoverEither, AllRecover, RecordSize, AllOwned,
         Reaches, LogBytes, TotalUsed, Growth, Moved, KeepsOwned, Reclaimed, Blocked, Chosen, Roomy,
         SomeFilled;
    ghost var t, v := ix.table, ix.ViewNow();
    ghost var fired, kept, safe, moved, emptied;
    s, fired, kept, safe, moved, emptied := RunCompaction(ix, threshold);
    GrowthIsExact(ix, old(LogHere(ix)), moved, ix.disk.files.keySize, fired, kept, LogHere(ix));
    mark := Mark(ix.disk.faulted, ix.disk.logFaulted, ix.disk.flushFaulted, kept, safe, moved, emptied);
    EitherOf(ix.disk.seen, t, v, t, v);
  }

  lemma GrowthIsExact(ix: Index, l: Log, n: nat, keySize: nat, fired: bool, kept: bool, l': Log)
    requires Growth(ix, l, n, keySize, fired, kept, l')
    ensures l.isOpen && !fired ==> (kept <==> l'.written == l.written + LogBytes(n, RecordSize(keySize)))
  {
    hide Reaches, Tracked;
  }

  lemma NothingToJustify(ix: Index, b: Snap, op: Op, s: Status, a: Snap)
    requires op.DeleteOp? || op.GetOp?
    ensures Justified(ix, b, op, s, a)
  {
  }

  lemma PlainMark(ix: Index, b: Snap, op: Op, s: Status, a: Snap)
    requires !op.CompactOp? && a.mark.kept && a.mark.safe && a.mark.moved == 0 && a.mark.emptied == {}
    requires Justified(ix, b, op, s, a.(mark := UNMARKED))
    ensures Marked(ix, b, op, s, a)
  {
    hide SomeRoom, TwoFilled;
  }

  /** One operation, from a state in which nothing has failed yet. */
  method Dispatch(ix: Index, op: Op) returns (o: Outcome, ghost mark: Mark)
    requires ix.Valid() && WellSized(op, ix.disk.files.keySize)
    requires !ix.disk.faulted && !ix.disk.logFaulted && !ix.disk.flushFaulted
    requires ix.Synced() ==> AllRecoverEither(ix.disk.seen, ix.ViewNow(), ix.ViewNow())
    modifies ix`table, ix.mgr, ix.mgr.segments.Values, ix.wal, ix.disk
    ensures ix.Valid() && ix.mgr.segments == old(ix.mgr.segments)
    ensures ix.disk.files.keySize == old(ix.disk.files).keySize
    ensures mark.failed == ix.disk.faulted && mark.logFailed == ix.disk.logFaulted &&
            mark.flushFailed == ix.disk.flushFaulted && (Failure(o.status) ==> mark.failed)
    ensures Marked(ix, old(Now(ix, UNMARKED)), op, o.status, Now(ix, mark))
    ensures ix.ViewNow() == Next(old(ix.ViewNow()), op, o)
    ensures Agrees(old(ix.ViewNow()), op, o, ix.valueSize)
    ensures old(Tidy(ix)) ==> Tidy(ix) && Spacious(old(Now(ix, UNMARKED)), op, o)
    ensures old(NoLoss(ix)) && Keeping(op, o, mark) ==> NoLoss(ix)
    ensures ix.wal.isOpen ==> old(ix.wal.isOpen)
    ensures old(ix.wal.isOpen) && !mark.failed && Fits(ix, old(Now(ix, UNMARKED)), op) ==>
              ix.wal.isOpen &&
              ix.wal.written <= old(ix.wal.written) +
                                LogBytes(Cost(old(Now(ix, UNMARKED)), op), RecordSize(old(ix.disk.files).keySize))
    ensures old(ix.Synced()) && Covered(old(Now(ix, UNMARKED)), op, o, Now(ix, mark)) ==> ix.Synced()
    ensures old(ix.Synced()) && Guarded(old(Now(ix, UNMARKED)), op, o, Now(ix, mark)) ==>
              AllRecoverEither(ix.disk.seen, old(ix.ViewNow()), ix.ViewNow())
  {
    hide Index.Valid, Index.ViewNow, Index.Synced, NoLoss, Tidy, SegmentManager.MemsNow, NoRoom, AllRecoverEither,
         Movable, Marked, Reaches, LogBytes, RecordSize, TotalUsed, Chosen, SomeRoom, TwoFilled, Justified;
    OneRecord(RecordSize(ix.disk.files.keySize));
    var s, value := Ok, [];
    ghost var b, marked := Now(ix, UNMARKED), UNMARKED;
    match op {
      case PutOp(key, v) => s := ExecPut(ix, key, v);
      case DeleteOp(key) => s := ExecDelete(ix, key);
      case GetOp(key) => s, value := ExecGet(ix, key);
      case CheckpointOp => s := ExecCheckpoint(ix);
      case CompactOp(threshold) => s, marked := ExecCompact(ix, threshold);
    }
    o := Outcome(s, value);
    mark := marked.(failed := ix.disk.faulted, logFailed := ix.disk.logFaulted, flushFailed := ix.disk.flushFaulted);
    if !op.CompactOp? {
      if op.DeleteOp? || op.GetOp? {
        assert Justified(ix, b, op, s, Now(ix, UNMARKED)) by { NothingToJustify(ix, b, op, s, Now(ix, UNMARKED)); }
      }
      PlainMark(ix, b, op, s, Now(ix, mark));
    }
  }

  /** One operation; what failed in it goes into its mark and adds to what had failed before. */
  method Exec(ix: Index, op: Op) returns (o: Outcome, ghost mark: Mark)
    requires ix.Valid() && WellSized(op, ix.disk.files.keySize)
    modifies ix`table, ix.mgr, ix.mgr.segments.Values, ix.wal, ix.disk
    ensures ix.Valid() && ix.mgr.segments == old(ix.mgr.segments)
    ensures ix.disk.files.keySize == old(ix.disk.files).keySize
    ensures ix.disk.faulted == (old(ix.disk.faulted) || mark.failed) && (Failure(o.status) ==> mark.failed)
    ensures ix.disk.logFaulted == (old(ix.disk.logFaulted) || mark.logFailed)
    ensures ix.disk.flushFaulted == (old(ix.disk.flushFaulted) || mark.flushFailed)
    ensures Marked(ix, old(Now(ix, UNMARKED)), op, o.status, Now(ix, mark))
    ensures ix.ViewNow() == Next(old(ix.ViewNow()), op, o)
    ensures Agrees(old(ix.ViewNow()), op, o, ix.valueSize)
    // Space.
    ensures old(Tidy(ix)) ==> Tidy(ix) && Spacious(old(Now(ix, UNMARKED)), op, o)
    // Slots.
    ensures old(NoLoss(ix)) && Keeping(op, o, mark) ==> NoLoss(ix)
    // The log, and recovery.
    ensures ix.wal.isOpen ==> old(ix.wal.isOpen)
    ensures old(ix.wal.isOpen) && !mark.failed && Fits(ix, old(Now(ix, UNMARKED)), op) ==>
              ix.wal.isOpen &&
              ix.wal.written <= old(ix.wal.written) +
                                LogBytes(Cost(old(Now(ix, UNMARKED)), op), RecordSize(old(ix.disk.files).keySize))
    ensures old(ix.Synced()) && Covered(old(Now(ix, UNMARKED)), op, o, Now(ix, mark)) ==> ix.Synced()
    ensures old(ix.Synced()) && Guarded(old(Now(ix, UNMARKED)), op, o, Now(ix, mark)) ==>
              AllRecoverEither(ix.disk.seen, old(ix.ViewNow()), ix.ViewNow())
  {
    hide Index.Valid, Index.ViewNow, Index.Synced, NoLoss, Tidy, SegmentManager.MemsNow, AllRecoverEither, Marked,
         LogBytes, RecordSize, Next, Agrees, Spacious, Keeping, Fits, Cost, Covered, Guarded, WellSized;
    ghost var faulted, logFaulted, flushFaulted := ix.disk.faulted, ix.disk.logFaulted, ix.disk.flushFaulted;
    Begin(ix);
    o, mark := Dispatch(ix, op);
    SetFault(ix, faulted || mark.failed, logFaulted || mark.logFailed, flushFaulted || mark.flushFailed);
  }

  lemma OneRecord(size: nat)
    ensures LogBytes(1, size) == size && LogBytes(0, size) == 0
  {
  }

  lemma ViewDomain(t: Table, f: Files)
    ensures View(t, f).Keys == t.Keys
  {
  }

  lemma EitherOf(seen: iset<Files>, t: Table, v: map<Key, Value>, t': Table, v': map<Key, Value>)
    ensures AllAtomic(seen, t, v, t', v') ==> AllRecoverEither(seen, v, v')
    ensures AllRecover(seen, v) ==> AllRecoverEither(seen, v, v)
  {
    hide View, RecoveredTable, AllStored;
  }

  // ---------------------------------------------------------------- whole runs

  /** Every answer is the one the map at that point gives, and the states stand for those maps. */
  ghost predicate Faithful(v: map<Key, Value>, ops: seq<Op>, outs: seq<Outcome>, states: seq<Snap>, valueSize: nat) {
    |outs| == |ops| && |states| == |ops| + 1 &&
    (forall i :: 0 <= i < |ops| ==> Agrees(StateAt(v, ops, outs, i), ops[i], outs[i], valueSize)) &&
    (forall i :: 0 <= i <= |ops| ==> View(states[i].table, states[i].files) == StateAt(v, ops, outs, i))
  }

  ghost predicate AllCovered(ops: seq<Op>, outs: seq<Outcome>, states: seq<Snap>) {
    |outs| == |ops| && |states| == |ops| + 1 &&
    forall i :: 0 <= i < |ops| ==> Covered(states[i], ops[i], outs[i], states[i + 1])
  }

  /** Every operation but the last is covered, and the last one guarded. */
  ghost predicate LastGuarded(ops: seq<Op>, outs: seq<Outcome>, states: seq<Snap>) {
    |outs| == |ops| && |states| == |ops| + 1 &&
    (ops == [] ||
     (var n := |ops| - 1;
      AllCovered(ops[..n], outs[..n], states[..n + 1]) && Guarded(states[n], ops[n], outs[n], states[n + 1])))
  }

  ghost predicate AllMarked(ix: Index, ops: seq<Op>, outs: seq<Outcome>, states: seq<Snap>) {
    |outs| == |ops| && |states| == |ops| + 1 &&
    forall i :: 0 <= i < |ops| ==> Marked(ix, states[i], ops[i], outs[i].status, states[i + 1])
  }

  ghost predicate AllKeeping(ops: seq<Op>, outs: seq<Outcome>, states: seq<Snap>) {
    |outs| == |ops| && |states| == |ops| + 1 &&
    forall i :: 0 <= i < |ops| ==> Keeping(ops[i], outs[i], states[i + 1].mark)
  }

  ghost predicate NoneFailed(states: seq<Snap>) {
    forall a :: a in states ==> !a.mark.failed
  }

  /** A put finds room while there is some, and reports its lack only when there is none. */
  ghost predicate Spacious(b: Snap, op: Op, o: Outcome) {
    op.PutOp? ==>
      o.status != Status.Full && (o.status == NoSpace ==> NoRoom(b.classes, b.mems)) &&
      (o.status == Ok ==> !NoRoom(b.classes, b.mems))
  }

  ghost predicate SpaceIsUsed(ops: seq<Op>, outs: seq<Outcome>, states: seq<Snap>) {
    |outs| == |ops| && |states| == |ops| + 1 && forall i :: 0 <= i < |ops| ==> Spacious(states[i], ops[i], outs[i])
  }

  /** The map after a run. */
  ghost function Final(v: map<Key, Value>, ops: seq<Op>, outs: seq<Outcome>): map<Key, Value>
    requires |outs| == |ops|
  {
    StateAt(v, ops, outs, |ops|)
  }

  /** The map before the last operation of a run. */
  ghost function BeforeLast(v: map<Key, Value>, ops: seq<Op>, outs: seq<Outcome>): map<Key, Value>
    requires |outs| == |ops|
  {
    if ops == [] then v else StateAt(v, ops, outs, |ops| - 1)
  }

  /** At most how many entries a run over a map of `n` entries leaves. */
  function Entries(n: nat, ops: seq<Op>): nat {
    if ops == [] then n else Entries(n, ops[..|ops| - 1]) + if ops[|ops| - 1].PutOp? then 1 else 0
  }

  /** At most how many records a run over a map of `n` entries logs. */
  function Records(n: nat, ops: seq<Op>): nat {
    if ops == [] then 0
    else
      var rest, op := ops[..|ops| - 1], ops[|ops| - 1];
      Records(n, rest) +
      match op
      case PutOp(_, _) => 1
      case DeleteOp(_) => 1
      case CompactOp(_) => Entries(n, rest)
      case _ => 0
  }

  lemma Snapped(ix: Index, b: Snap)
    requires b == Now(ix, b.mark)
    ensures View(b.table, b.files) == ix.ViewNow() && b.files.keySize == ix.disk.files.keySize
    ensures b.isOpen == ix.wal.isOpen && b.written == ix.wal.written && b.table == ix.table
    ensures b.classes == ix.mgr.Classification() && b.mems == ix.mgr.MemsNow()
    ensures b.(mark := UNMARKED) == Now(ix, UNMARKED)
  {
    hide View, SegmentManager.MemsNow;
  }

  /** A step depends on the state it starts from, not on how that came about. */
  lemma CoveredSame(ix: Index, b: Snap, op: Op, o: Outcome, a: Snap)
    ensures Marked(ix, b.(mark := UNMARKED), op, o.status, a) <==> Marked(ix, b, op, o.status, a)
    ensures Covered(b.(mark := UNMARKED), op, o, a) <==> Covered(b, op, o, a)
    ensures Guarded(b.(mark := UNMARKED), op, o, a) <==> Guarded(b, op, o, a)
    ensures Cost(b.(mark := UNMARKED), op) == Cost(b, op) && Fits(ix, b.(mark := UNMARKED), op) == Fits(ix, b, op)
  {
    hide AllOwned, Reaches, TotalUsed, Chosen;
  }

  /** What conservation says about any set of segments. */
  ghost predicate Bounded(b: Snap) {
    forall ids :: ids <= b.mems.Keys ==> AllOwned(PointOf(b), ids) && TotalUsed(b.mems, ids) <= |b.table|
  }

  lemma NoLossIsBounded(ix: Index, b: Snap)
    requires ix.Valid() && b == Now(ix, b.mark) && NoLoss(ix)
    ensures Bounded(b)
  {
    hide AllOwned, TotalUsed, Inv, SegmentManager.Valid, SegmentManager.MemsNow, LogClean, ConservedBut;
    ConservedIffOwned(PointOf(b));
    forall ids | ids <= b.mems.Keys
      ensures AllOwned(PointOf(b), ids) && TotalUsed(b.mems, ids) <= |b.table|
    {
      FewerOwned(PointOf(b), b.mems.Keys, ids);
      TotalUsedGrows(b.mems, ids, b.mems.Keys);
      SlotsAreEntries(b.table, b.mems, b.files);
    }
  }

  /** The threshold is out of reach as long as the run stays within its bound. */
  ghost predicate Budget(ix: Index, noLoss: bool, isOpen: bool, w: nat, entries: nat, ops: seq<Op>, n: nat,
                         outs: seq<Outcome>, states: seq<Snap>, size: nat) {
    n <= |ops| && |outs| == n && |states| == n + 1 && |states[n].table| <= Entries(entries, ops[..n]) &&
    (noLoss && isOpen && NoneFailed(states) && AllKeeping(ops[..n], outs, states) &&
     !Reaches(ix, w, Records(entries, ops), size) ==>
       states[n].isOpen && AllCovered(ops[..n], outs, states) &&
       states[n].written <= w + LogBytes(Records(entries, ops[..n]), RecordSize(size)))
  }

  lemma BudgetStarts(ix: Index, noLoss: bool, ops: seq<Op>, b: Snap)
    ensures Budget(ix, noLoss, b.isOpen, b.written, |b.table|, ops, 0, [], [b], b.files.keySize)
  {
    assert ops[..0] == [];
    LogBytesMore(0, 0, RecordSize(b.files.keySize));
  }

  lemma {:induction false} RecordsGrow(entries: nat, ops: seq<Op>, n: nat)
    requires n <= |ops|
    ensures Records(entries, ops[..n]) <= Records(entries, ops)
    decreases |ops|
  {
    hide Entries;
    if n < |ops| {
      var rest := ops[..|ops| - 1];
      assert rest[..n] == ops[..n];
      RecordsGrow(entries, rest, n);
    } else {
      assert ops[..n] == ops;
    }
  }

  lemma RecordsStep(entries: nat, ops: seq<Op>, n: nat)
    requires n < |ops|
    ensures Entries(entries, ops[..n + 1]) == Entries(entries, ops[..n]) + if ops[n].PutOp? then 1 else 0
    ensures Records(entries, ops[..n + 1]) == Records(entries, ops[..n]) +
            match ops[n]
            case PutOp(_, _) => 1
            case DeleteOp(_) => 1
            case CompactOp(_) => Entries(entries, ops[..n])
            case _ => 0
  {
    var some := ops[..n + 1];
    assert some[..n] == ops[..n] && some[n] == ops[n];
  }

  /** One more operation within the bound. */
  lemma BudgetStep(ix: Index, noLoss: bool, isOpen: bool, w: nat, entries: nat, ops: seq<Op>, n: nat,
                   outs: seq<Outcome>, states: seq<Snap>, size: nat, o: Outcome, a: Snap)
    requires Budget(ix, noLoss, isOpen, w, entries, ops, n, outs, states, size) && n < |ops|
    requires states[n].files.keySize == size && (Failure(o.status) ==> a.mark.failed)
    requires noLoss && AllKeeping(ops[..n], outs, states) ==> Bounded(states[n])
    requires |a.table| <= |states[n].table| + if ops[n].PutOp? then 1 else 0
    requires Marked(ix, states[n], ops[n], o.status, a)
    requires states[n].isOpen && !a.mark.failed && Fits(ix, states[n], ops[n]) ==>
               a.isOpen &&
               a.written <= states[n].written + LogBytes(Cost(states[n], ops[n]), RecordSize(size))
    ensures Budget(ix, noLoss, isOpen, w, entries, ops, n + 1, outs + [o], states + [a], size)
  {
    hide Records, Entries, LogBytes, RecordSize, AllOwned, TotalUsed, Chosen, Keeping;
    var b, op, rest := states[n], ops[n], ops[..n];
    assert ops[..n + 1] == rest + [op];
    RecordsStep(entries, ops, n);
    RecordsGrow(entries, ops, n + 1);
    TraceExtend(rest, outs, states, op, o, a);
    if noLoss && isOpen && NoneFailed(states + [a]) && AllKeeping(ops[..n + 1], outs + [o], states + [a]) &&
       !Reaches(ix, w, Records(entries, ops), size) {
      StepFits(ix, w, Records(entries, rest), Records(entries, ops[..n + 1]), Records(entries, ops), b, op, o, a, size,
               Entries(entries, rest));
    }
  }

  /** Inside the bound a compaction needs no checkpoint, and the log grows no further than the bound. */
  lemma StepFits(ix: Index, w: nat, before: nat, behind: nat, total: nat, b: Snap, op: Op, o: Outcome, a: Snap,
                 size: nat, entries: nat)
    requires !Reaches(ix, w, total, size) && behind <= total && b.files.keySize == size && |b.table| <= entries
    requires behind == before +
             match op case PutOp(_, _) => 1 case DeleteOp(_) => 1 case CompactOp(_) => entries case _ => 0
    requires b.written <= w + LogBytes(before, RecordSize(size)) && Bounded(b) && b.isOpen && !a.mark.failed &&
             (Failure(o.status) ==> a.mark.failed)
    requires Marked(ix, b, op, o.status, a)
    requires Fits(ix, b, op) ==>
               a.isOpen && a.written <= b.written + LogBytes(Cost(b, op), RecordSize(size))
    ensures Covered(b, op, o, a) && a.isOpen && a.written <= w + LogBytes(behind, RecordSize(size))
  {
    hide LogBytes, RecordSize, AllOwned, TotalUsed, Chosen;
    var cost := Cost(b, op);
    assert before + cost <= behind;
    LogBytesAdd(before, cost, RecordSize(size));
    LogBytesMore(before + cost, behind, RecordSize(size));
    LogBytesMore(before + cost, total, RecordSize(size));
  }

  /** One more step leaves the earlier ones as they were. */
  lemma TraceExtend(ops: seq<Op>, outs: seq<Outcome>, states: seq<Snap>, op: Op, o: Outcome, a: Snap)
    requires |outs| == |ops| && |states| == |ops| + 1
    ensures AllCovered(ops + [op], outs + [o], states + [a]) <==>
            AllCovered(ops, outs, states) && Covered(states[|ops|], op, o, a)
    ensures AllKeeping(ops + [op], outs + [o], states + [a]) <==>
            AllKeeping(ops, outs, states) && Keeping(op, o, a.mark)
    ensures LastGuarded(ops + [op], outs + [o], states + [a]) <==>
            AllCovered(ops, outs, states) && Guarded(states[|ops|], op, o, a)
    ensures NoneFailed(states + [a]) <==> NoneFailed(states) && !a.mark.failed
  {
    hide Covered, Guarded, Keeping, AllCovered;
    assert (ops + [op])[..|ops|] == ops && (outs + [o])[..|ops|] == outs && (states + [a])[..|ops| + 1] == states;
    CoveredExtend(ops, outs, states, op, o, a);
    KeepingExtend(ops, outs, states, op, o, a);
    assert a in states + [a];
    assert forall x :: x in states ==> x in states + [a];
  }

  lemma CoveredExtend(ops: seq<Op>, outs: seq<Outcome>, states: seq<Snap>, op: Op, o: Outcome, a: Snap)
    requires |outs| == |ops| && |states| == |ops| + 1
    ensures AllCovered(ops + [op], outs + [o], states + [a]) <==>
            AllCovered(ops, outs, states) && Covered(states[|ops|], op, o, a)
  {
    hide Covered;
    var ops', outs', states' := ops + [op], outs + [o], states + [a];
    if AllCovered(ops', outs', states') {
      assert Covered(states'[|ops|], ops'[|ops|], outs'[|ops|], states'[|ops| + 1]);
      forall i | 0 <= i < |ops|
        ensures Covered(states[i], ops[i], outs[i], states[i + 1])
      {
        assert Covered(states'[i], ops'[i], outs'[i], states'[i + 1]);
      }
    }
  }

  lemma KeepingExtend(ops: seq<Op>, outs: seq<Outcome>, states: seq<Snap>, op: Op, o: Outcome, a: Snap)
    requires |outs| == |ops| && |states| == |ops| + 1
    ensures AllKeeping(ops + [op], outs + [o], states + [a]) <==>
            AllKeeping(ops, outs, states) && Keeping(op, o, a.mark)
  {
    hide Keeping;
    var ops', outs', states' := ops + [op], outs + [o], states + [a];
    if AllKeeping(ops', outs', states') {
      assert Keeping(ops'[|ops|], outs'[|ops|], states'[|ops| + 1].mark);
      forall i | 0 <= i < |ops|
        ensures Keeping(ops[i], outs[i], states[i + 1].mark)
      {
        assert Keeping(ops'[i], outs'[i], states'[i + 1].mark);
      }
    }
  }

  lemma MapsExtend(v: map<Key, Value>, ops: seq<Op>, outs: seq<Outcome>, states: seq<Snap>, op: Op, o: Outcome, a: Snap,
                   valueSize: nat)
    requires Faithful(v, ops, outs, states, valueSize) && Agrees(Final(v, ops, outs), op, o, valueSize)
    requires View(a.table, a.files) == Next(Final(v, ops, outs), op, o)
    ensures Faithful(v, ops + [op], outs + [o], states + [a], valueSize)
    ensures BeforeLast(v, ops + [op], outs + [o]) == Final(v, ops, outs)
    ensures Final(v, ops + [op], outs + [o]) == Next(Final(v, ops, outs), op, o)
  {
    hide Next, Agrees, View, StateAt;
    MapsSame(v, ops, outs, op, o);
    var ops', outs', states' := ops + [op], outs + [o], states + [a];
    forall i | 0 <= i < |ops'|
      ensures Agrees(StateAt(v, ops', outs', i), ops'[i], outs'[i], valueSize)
    {
      if i < |ops| {
        assert ops'[i] == ops[i] && outs'[i] == outs[i];
        assert Agrees(StateAt(v, ops, outs, i), ops[i], outs[i], valueSize);
      }
    }
    forall i | 0 <= i <= |ops'|
      ensures View(states'[i].table, states'[i].files) == StateAt(v, ops', outs', i)
    {
      if i <= |ops| {
        assert states'[i] == states[i];
        assert View(states[i].table, states[i].files) == StateAt(v, ops, outs, i);
      }
    }
  }

  lemma MapsSame(v: map<Key, Value>, ops: seq<Op>, outs: seq<Outcome>, op: Op, o: Outcome)
    requires |outs| == |ops|
    ensures forall i :: 0 <= i <= |ops| ==> StateAt(v, ops + [op], outs + [o], i) == StateAt(v, ops, outs, i)
    ensures StateAt(v, ops + [op], outs + [o], |ops| + 1) == Next(StateAt(v, ops, outs, |ops|), op, o)
  {
    hide Next;
    forall i | 0 <= i <= |ops|
      ensures StateAt(v, ops + [op], outs + [o], i) == StateAt(v, ops, outs, i)
    {
      StatePrefix(v, ops, outs, [op], [o], i);
    }
  }

  lemma MarkedExtend(ix: Index, ops: seq<Op>, outs: seq<Outcome>, states: seq<Snap>, op: Op, o: Outcome, a: Snap)
    requires AllMarked(ix, ops, outs, states) && Marked(ix, states[|ops|], op, o.status, a)
    ensures AllMarked(ix, ops + [op], outs + [o], states + [a])
  {
    hide Marked;
  }

  lemma SpaceExtend(ops: seq<Op>, outs: seq<Outcome>, states: seq<Snap>, op: Op, o: Outcome, a: Snap)
    requires SpaceIsUsed(ops, outs, states) && Spacious(states[|ops|], op, o)
    ensures SpaceIsUsed(ops + [op], outs + [o], states + [a])
  {
    hide Spacious;
  }

  lemma {:induction false} StatePrefix(v: map<Key, Value>, ops: seq<Op>, outs: seq<Outcome>,
                                       ops': seq<Op>, outs': seq<Outcome>, n: nat)
    requires n <= |ops| && n <= |outs|
    ensures StateAt(v, ops + ops', outs + outs', n) == StateAt(v, ops, outs, n)
  {
    hide Next;
    if n > 0 {
      StatePrefix(v, ops, outs, ops', outs', n - 1);
    }
  }

  lemma NoStates(ix: Index, v: map<Key, Value>, b: Snap)
    requires !b.mark.failed && View(b.table, b.files) == v
    ensures Faithful(v, [], [], [b], ix.valueSize) && Final(v, [], []) == v && BeforeLast(v, [], []) == v
    ensures AllMarked(ix, [], [], [b]) && NoneFailed([b]) && AllKeeping([], [], [b]) && AllCovered([], [], [b]) &&
            SpaceIsUsed([], [], [b])
  {
    hide View;
  }

  /** A put adds at most one entry, and nothing else adds any. */
  lemma SizeStep(b: Snap, op: Op, o: Outcome, a: Snap)
    requires View(a.table, a.files) == Next(View(b.table, b.files), op, o)
    ensures |a.table| <= |b.table| + if op.PutOp? then 1 else 0
  {
    hide View;
    ViewDomain(a.table, a.files);
    ViewDomain(b.table, b.files);
    var v, v' := View(b.table, b.files), View(a.table, a.files);
    assert |v| == |v.Keys| == |b.table.Keys| == |b.table| && |v'| == |v'.Keys| == |a.table.Keys| == |a.table|;
    match op
    case PutOp(key, value) =>
      if o.status == Ok {
        assert v'.Keys == v.Keys + {key};
      }
    case DeleteOp(key) =>
      if o.status == Ok {
        assert v'.Keys == v.Keys - {key};
        assert v'.Keys <= v.Keys;
        FewerKeys(v'.Keys, v.Keys);
      }
    case _ =>
  }

  lemma {:induction false} FewerKeys(a: set<Key>, b: set<Key>)
    requires a <= b
    ensures |a| <= |b|
  {
    assert b == a + (b - a);
  }

  /** Everything a run keeps track of. */
  datatype Facts = Facts(view: map<Key, Value>, synced: bool, noLoss: bool, tidy: bool, faulted: bool,
                         seen: iset<Files>, snap: Snap)

  ghost function FactsNow(ix: Index, mark: Mark): Facts
    reads ix, ix.mgr, ix.mgr.segments.Values, ix.wal, ix.disk
  {
    Facts(ix.ViewNow(), ix.Synced(), NoLoss(ix), Tidy(ix), ix.disk.faulted, ix.disk.seen, Now(ix, mark))
  }

  /** What one operation does to the facts. */
  ghost predicate Stepped(ix: Index, p: Facts, op: Op, o: Outcome, q: Facts) {
    q.view == Next(p.view, op, o) && Agrees(p.view, op, o, ix.valueSize) &&
    View(p.snap.table, p.snap.files) == p.view && View(q.snap.table, q.snap.files) == q.view &&
    q.snap.files.keySize == p.snap.files.keySize &&
    (q.faulted <==> p.faulted || q.snap.mark.failed) && (Failure(o.status) ==> q.snap.mark.failed) &&
    Marked(ix, p.snap, op, o.status, q.snap) && (p.tidy ==> q.tidy && Spacious(p.snap, op, o)) &&
    (p.noLoss ==> Bounded(p.snap)) && (p.noLoss && Keeping(op, o, q.snap.mark) ==> q.noLoss) &&
    (p.snap.isOpen && !q.snap.mark.failed && Fits(ix, p.snap, op) ==>
       q.snap.isOpen &&
       q.snap.written <= p.snap.written + LogBytes(Cost(p.snap, op), RecordSize(p.snap.files.keySize))) &&
    (p.synced && Covered(p.snap, op, o, q.snap) ==> q.synced) &&
    (p.synced && Guarded(p.snap, op, o, q.snap) ==> AllRecoverEither(q.seen, p.view, q.view))
  }

  method Step(ix: Index, op: Op, ghost p: Facts) returns (o: Outcome, ghost q: Facts)
    requires ix.Valid() && WellSized(op, ix.disk.files.keySize) && p == FactsNow(ix, p.snap.mark)
    modifies ix`table, ix.mgr, ix.mgr.segments.Values, ix.wal, ix.disk
    ensures ix.Valid() && ix.mgr.segments == old(ix.mgr.segments) && ix.disk.files.keySize == old(ix.disk.files).keySize
    ensures q == FactsNow(ix, q.snap.mark) && Stepped(ix, p, op, o, q)
  {
    hide Index.Valid, Index.ViewNow, Index.Synced, NoLoss, Tidy, SegmentManager.MemsNow, NoRoom, Covered, Guarded,
         Fits, Marked, AllRecoverEither, WellSized, Next, Agrees, Keeping, Cost, LogBytes, RecordSize, View, Bounded;
    if NoLoss(ix) {
      NoLossIsBounded(ix, p.snap);
    }
    Snapped(ix, p.snap);
    ghost var mark;
    o, mark := Exec(ix, op);
    q := FactsNow(ix, mark);
    Snapped(ix, q.snap);
    CoveredSame(ix, p.snap, op, o, q.snap);
  }

  /** What the first `n` operations of a run have done. */
  ghost predicate Ran(ix: Index, p: Facts, ops: seq<Op>, n: nat, outs: seq<Outcome>, states: seq<Snap>, q: Facts) {
    n <= |ops| && |outs| == n && |states| == n + 1 && states[0] == p.snap && states[n] == q.snap &&
    q.snap.files.keySize == p.snap.files.keySize &&
    Faithful(p.view, ops[..n], outs, states, ix.valueSize) && q.view == Final(p.view, ops[..n], outs) &&
    (q.faulted <==> p.faulted || !NoneFailed(states)) &&
    (forall i :: 0 <= i < n && Failure(outs[i].status) ==> states[i + 1].mark.failed) &&
    AllMarked(ix, ops[..n], outs, states) &&
    (p.tidy ==> q.tidy && SpaceIsUsed(ops[..n], outs, states)) &&
    (p.noLoss && AllKeeping(ops[..n], outs, states) ==> q.noLoss) &&
    (p.synced && AllCovered(ops[..n], outs, states) ==> q.synced) &&
    (p.synced && LastGuarded(ops[..n], outs, states) ==>
       AllRecoverEither(q.seen, BeforeLast(p.view, ops[..n], outs), q.view)) &&
    Budget(ix, p.noLoss, p.snap.isOpen, p.snap.written, |p.snap.table|, ops, n, outs, states, p.snap.files.keySize)
  }

  lemma RanStarts(ix: Index, ops: seq<Op>, p: Facts)
    requires !p.snap.mark.failed && View(p.snap.table, p.snap.files) == p.view
    requires p.synced ==> AllRecoverEither(p.seen, p.view, p.view)
    ensures Ran(ix, p, ops, 0, [], [p.snap], p)
  {
    hide View, AllRecoverEither, Budget, Faithful, AllCovered, LastGuarded, AllMarked, AllKeeping, NoneFailed,
         SpaceIsUsed, Final, BeforeLast;
    assert ops[..0] == [];
    NoStates(ix, p.view, p.snap);
    BudgetStarts(ix, p.noLoss, ops, p.snap);
  }

  lemma RanMeans(ix: Index, p: Facts, ops: seq<Op>, outs: seq<Outcome>, states: seq<Snap>, q: Facts)
    requires Ran(ix, p, ops, |ops|, outs, states, q)
    ensures |outs| == |ops| && |states| == |ops| + 1 && states[0] == p.snap && states[|ops|] == q.snap
    ensures Faithful(p.view, ops, outs, states, ix.valueSize) && q.view == Final(p.view, ops, outs)
    ensures q.faulted <==> p.faulted || !NoneFailed(states)
    ensures forall i :: 0 <= i < |ops| && Failure(outs[i].status) ==> states[i + 1].mark.failed
    ensures AllMarked(ix, ops, outs, states)
    ensures p.tidy ==> q.tidy && SpaceIsUsed(ops, outs, states)
    ensures p.noLoss && AllKeeping(ops, outs, states) ==> q.noLoss
    ensures p.synced && AllCovered(ops, outs, states) ==> q.synced
    ensures p.synced && LastGuarded(ops, outs, states) ==>
              AllRecoverEither(q.seen, BeforeLast(p.view, ops, outs), q.view)
    ensures p.noLoss && p.snap.isOpen && NoneFailed(states) && AllKeeping(ops, outs, states) &&
            !Reaches(ix, p.snap.written, Records(|p.snap.table|, ops), p.snap.files.keySize) ==>
              q.snap.isOpen && AllCovered(ops, outs, states)
  {
    hide View, AllRecoverEither, Faithful, AllCovered, LastGuarded, AllMarked, AllKeeping, NoneFailed, SpaceIsUsed,
         Final, BeforeLast, Reaches, Records, Entries;
    assert ops[..|ops|] == ops;
  }

  lemma RanStep(ix: Index, p: Facts, ops: seq<Op>, n: nat, outs: seq<Outcome>, states: seq<Snap>, q: Facts,
                o: Outcome, r: Facts)
    requires Ran(ix, p, ops, n, outs, states, q) && n < |ops| && Stepped(ix, q, ops[n], o, r)
    ensures Ran(ix, p, ops, n + 1, outs + [o], states + [r.snap], r)
  {
    hide View, AllRecoverEither, Budget, Faithful, AllCovered, LastGuarded, AllMarked, AllKeeping, NoneFailed,
         SpaceIsUsed, Final, BeforeLast, Next, Agrees, Keeping, Covered, Guarded, Spacious, Fits, Marked, Bounded,
         Cost, LogBytes, RecordSize;
    var rest, op, a := ops[..n], ops[n], r.snap;
    assert rest + [op] == ops[..n + 1];
    SizeStep(q.snap, op, o, a);
    MapsExtend(p.view, rest, outs, states, op, o, a, ix.valueSize);
    TraceExtend(rest, outs, states, op, o, a);
    MarkedExtend(ix, rest, outs, states, op, o, a);
    if p.tidy {
      SpaceExtend(rest, outs, states, op, o, a);
    }
    BudgetStep(ix, p.noLoss, p.snap.isOpen, p.snap.written, |p.snap.table|, ops, n, outs, states,
               p.snap.files.keySize, o, a);
  }

  /**
   * Every run refines the map, whatever fails.  It loses no slot while its puts and deletes
   * fail to write no bitmap and its compactions find room.  The crash states of its last operation,
   * which may be any operation, recover the map before or after it while every operation
   * before found the log open and left no record unsynced, and no compaction lost the record
   * of a slot it moved.  A bound on the log before a run without failures is enough for that.
   */
  method Run(ix: Index, ops: seq<Op>) returns (outs: seq<Outcome>, ghost states: seq<Snap>)
    requires ix.Valid() && forall i :: 0 <= i < |ops| ==> WellSized(ops[i], ix.disk.files.keySize)
    modifies ix`table, ix.mgr, ix.mgr.segments.Values, ix.wal, ix.disk
    ensures ix.Valid() && |outs| == |ops| && |states| == |ops| + 1
    ensures states[0] == old(Now(ix, UNMARKED)) && states[|ops|] == Now(ix, states[|ops|].mark)
    ensures Faithful(old(ix.ViewNow()), ops, outs, states, ix.valueSize)
    ensures ix.ViewNow() == Final(old(ix.ViewNow()), ops, outs)
    ensures ix.disk.faulted <==> old(ix.disk.faulted) || !NoneFailed(states)
    ensures forall i :: 0 <= i < |ops| && Failure(outs[i].status) ==> states[i + 1].mark.failed
    ensures AllMarked(ix, ops, outs, states)
    ensures old(Tidy(ix)) ==> Tidy(ix) && SpaceIsUsed(ops, outs, states)
    ensures old(NoLoss(ix)) && AllKeeping(ops, outs, states) ==> NoLoss(ix)
    ensures old(ix.Synced()) && AllCovered(ops, outs, states) ==> ix.Synced()
    ensures old(ix.Synced()) && LastGuarded(ops, outs, states) ==>
              AllRecoverEither(ix.disk.seen, BeforeLast(old(ix.ViewNow()), ops, outs), ix.ViewNow())
    ensures old(NoLoss(ix)) && old(ix.wal.isOpen) && NoneFailed(states) && AllKeeping(ops, outs, states) &&
            !Reaches(ix, old(ix.wal.written), Records(|old(ix.table)|, ops), old(ix.disk.files).keySize) ==>
              ix.wal.isOpen && AllCovered(ops, outs, states)
  {
    hide Index.Valid, Index.ViewNow, Index.Synced, NoLoss, Tidy, SegmentManager.MemsNow, Stepped, Ran, WellSized,
         View, AllRecoverEither, Faithful, Final, BeforeLast, AllCovered, LastGuarded, AllMarked, AllKeeping,
         NoneFailed, SpaceIsUsed, Reaches, Records;
    BeginSeen(ix);
    ghost var p := FactsNow(ix, UNMARKED);
    outs, states := [], [p.snap];
    Snapped(ix, p.snap);
    RanStarts(ix, ops, p);
    ghost var q := p;
    var n := 0;
    while n < |ops|
      invariant 0 <= n <= |ops| && ix.Valid() && ix.mgr.segments == old(ix.mgr.segments)
      invariant ix.disk.files.keySize == old(ix.disk.files).keySize
      invariant q == FactsNow(ix, q.snap.mark) && Ran(ix, p, ops, n, outs, states, q)
    {
      ghost var r;
      var o;
      o, r := Step(ix, ops[n], q);
      RanStep(ix, p, ops, n, outs, states, q, o, r);
      outs, states, q := outs + [o], states + [r.snap], r;
      n := n + 1;
    }
    RanMeans(ix, p, ops, outs, states, q);
  }

  /**
   * Life after a crash: from files that a crash during some operation left, a restart either
   * fails on storage or goes on, for every further run, from the map before or the map after
   * that operation, and the next crash is covered in the same way.  A crash may have lost
   * slots; then a compaction is covered while the segments it chooses have none of them.
   */
  method ResumeAfterCrash(disk: Disk, state: Option<Bytes>, valueSize: nat, checkpointBytes: nat, ops: seq<Op>,
                          ghost v: map<Key, Value>, ghost v': map<Key, Value>)
      returns (s: Status, ix: Index, outs: seq<Outcome>, ghost states: seq<Snap>, ghost w: map<Key, Value>,
               ghost loaded: Status)
    requires Recovers(disk.files, v) || Recovers(disk.files, v')
    requires forall i :: 0 <= i < |ops| ==> WellSized(ops[i], disk.files.keySize)
    modifies disk
    ensures s == Ok || Failure(s)
    ensures s != Ok ==> AllRecoverEither(disk.seen, v, v')
    ensures s == Ok ==> (w == v || w == v') && |outs| == |ops| && |states| == |ops| + 1
    ensures s == Ok ==>
              states[0].table == RecoveredTable(old(disk.files)) && states[0].mems == RebuiltMems(old(disk.files)) &&
              ClassifiedBy(states[0].classes, states[0].mems, state, loaded) &&
              Faithful(w, ops, outs, states, valueSize) && AllMarked(ix, ops, outs, states)
    ensures s == Ok && LastGuarded(ops, outs, states) ==>
              AllRecoverEither(disk.seen, BeforeLast(w, ops, outs), Final(w, ops, outs))
    // Without lost slots the size of the log decides whether everything is covered.
    ensures s == Ok && Conserved(RecoveredTable(old(disk.files)), RebuiltMems(old(disk.files)), old(disk.files)) &&
            NoneFailed(states) && AllKeeping(ops, outs, states) &&
            !Reaches(ix, |Cut(old(disk.files)).wal|, Records(|w|, ops), old(disk.files).keySize) ==>
              states[|ops|].isOpen && AllCovered(ops, outs, states)
  {
    hide Index.Valid, View, RecoveredTable, Recoverable, RebuiltMems, Cut, AllCovered, AllKeeping, NoneFailed,
         Faithful, Final, BeforeLast, SegmentManager.MemsNow, Tidy, SpaceIsUsed, Reaches, Records, ConservedBut,
         WellSized, ClassifiedBy;
    outs, states, w := [], [], View(RecoveredTable(disk.files), disk.files);
    ghost var f := disk.files;
    RecoversParts(f);
    s, ix, loaded := Restart(disk, state, valueSize, checkpointBytes, true);
    if s != Ok {
      return;
    }
    ConservedCut(RecoveredTable(f), RebuiltMems(f), f);
    ViewDomain(RecoveredTable(f), f);
    assert |w| == |w.Keys| && |ix.table| == |ix.table.Keys|;
    outs, states := Run(ix, ops);
  }

  lemma RecoversParts(f: Files)
    ensures Recoverable(f) ==> Formatted(f)
  {
    hide AllStored;
  }

  lemma ConservedCut(t: Table, mems: Mems, f: Files)
    ensures Conserved(t, mems, f) ==> Conserved(t, mems, Cut(f))
  {
    if Conserved(t, mems, f) {
      ConservedSameSegs(t, mems, f, Cut(f), None);
    }
  }
}
