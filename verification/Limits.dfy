/**
 * Where the guarantees end.  The methods here run an operation from a state in which its
 * condition fails, and show what it leaves behind.
 */
module Limits {
  import opened Base
  import opened Offset
  import opened WalCodec
  import opened Files
  import opened Segment
  import opened Store
  import opened Manager
  import opened Allocation
  import opened Index
  import opened Moves
  import opened Compaction
  import opened Passes
  import opened Recovery
  import opened Disk
  import opened Wal
  import Bitmap

  /**
   * A checkpoint that fires inside the move callback dumps the table before the entry is
   * remapped and empties the log.  The source is recycled nevertheless, so that a store whose
   * log is close to the threshold loses a key at the next restart.  Memory does not notice.
   */
  method CheckpointDuringMoveLosesKey(ix: Index, src: SegId, target: SegId) returns (s: Status)
    requires ix.Valid() && src in ix.mgr.segments && target in ix.mgr.segments && src != target
    requires ix.disk.files in ix.disk.seen && Durable(ix) && ix.wal.isOpen
    requires AllOwned(Here(ix), {src}) && FitsBehind(ix.mgr.MemsNow(), src, target)
    requires Reaches(ix, ix.wal.written, ix.mgr.segments[src].used, ix.disk.files.keySize)
    modifies ix`table, ix.mgr.segments[src], ix.mgr.segments[target], ix.wal, ix.disk
    ensures ix.ViewNow() == old(ix.ViewNow())
    ensures !ix.disk.faulted ==> s == Ok && !Recoverable(ix.disk.files)
  {
    hide Index.Valid, SegmentManager.MemsNow, AllOwned, Keeps, Reaches, Recoverable, View, RecoveredTable, AllRecover,
         Compacted, FitsBehind, LogBytes, RecordSize;
    ghost var fired, kept, moved, emptied;
    s, fired, kept, moved, emptied := Compact(ix, src, target);
  }

  /**
   * The move callback logs before it looks.  Moving a slot that no entry names, as a crash
   * between logging and freeing leaves behind, gives its key the value of that slot at the
   * next restart: a deleted key comes back, and a newer value is replaced by the older one.
   */
  method MovingLostSlotRevivesKey(ix: Index, src: SegId, i: SlotId, target: SegId) returns (s: Status)
    requires ix.Valid() && src in ix.mgr.segments && target in ix.mgr.segments && src != target
    requires i < ix.mgr.segments[src].cursor && Bitmap.IsSet(ix.mgr.segments[src].bitmap, i)
    requires Cleared(ix.table, src, i) && ix.disk.files in ix.disk.seen
    requires ix.Synced() && ix.wal.isOpen && !Due(ix, ix.wal.written, ix.disk.files.keySize)
    requires !Owned(ix.table, ix.disk.files, src, i)
    modifies ix`table, ix.mgr.segments[target], ix.wal, ix.disk
    ensures ix.ViewNow() == old(ix.ViewNow())
    ensures !ix.disk.faulted && old(ix.mgr.MemsNow())[target].cursor < old(ix.mgr.MemsNow())[target].total ==> s == Ok
    ensures !ix.disk.faulted && s == Ok ==>
              var c := SlotAt(old(ix.disk.files), src, i);
              !ix.Synced() && Recovers(ix.disk.files, old(ix.ViewNow())[c.key := c.value])
  {
    hide Index.Valid, SegmentManager.MemsNow, Keeps, View, RecoveredTable, Recovers, Cleared, Appending1, KeepsStale,
         Bitmap.IsSet, EncodeSlot, RecordSize, Owned, Due;
    ghost var fired, kept;
    s, fired, kept := MoveSlot(ix, src, i, target);
  }

  /**
   * With the log closed, as a failed rotation leaves it, a put is not logged, and a checkpoint
   * installs the snapshot but keeps the old log.  If that mentions the key, it wins over the
   * newer snapshot.
   */
  method StaleLogWins(ix: Index, key: Key, value: Value) returns (s: Status, s': Status)
    requires ix.Valid() && |key| == ix.disk.files.keySize && ix.Synced() && !ix.wal.isOpen
    requires WrittenBy(Replayed(ix.disk.files.keySize, ix.disk.files.wal), key)
    modifies ix`table, ix.mgr, ix.mgr.segments.Values, ix.wal, ix.disk
    ensures ix.Valid()
    ensures !ix.disk.faulted && |value| == ix.valueSize && ix.hasSnapshotDir &&
            old(SomeRoom(ix.mgr.Classification(), ix.mgr.MemsNow())) &&
            !old(TwoFilled(ix.mgr.Classification(), ix.mgr.MemsNow())) ==>
              s == Ok && s' == Ok
    ensures s == Ok && s' == Ok ==> ix.ViewNow() == old(ix.ViewNow())[key := value] && !ix.Synced()
  {
    hide Index.Valid, SegmentManager.MemsNow, View, RecoveredTable, Replayed, ConservedBut, OneAppending, NoRoom,
         AllAtomic, LogAgrees, WrittenBy, Logged, RecordLeft, RecordSize, SomeRoom, TwoFilled;
    ghost var t, f := ix.table, ix.disk.files;
    s := ix.Put(key, value);
    if s == Ok {
      LogDisagrees(f, t, ix.table, key);
    }
    s' := ix.Checkpoint();
  }

  /** A log that produced the table does not agree with it once a key it mentions has changed. */
  lemma LogDisagrees(f: Files, t: Table, t': Table, key: Key)
    requires RecoveredTable(f) == t && WrittenBy(Replayed(f.keySize, f.wal), key)
    requires key in t' && t' == t[key := t'[key]] && t' != t
    ensures !LogAgrees(t', Replayed(f.keySize, f.wal))
  {
    hide Replayed, ApplyAll;
    var recs := Replayed(f.keySize, f.wal);
    LastWriterWins(f.snapshot, map[], recs, key);
    assert AgreeAt(ApplyAll(f.snapshot, recs), ApplyAll(map[], recs), key);
    ChangedEntry(t, t', key);
    assert !AgreeAt(ApplyAll(map[], recs), t', key);
  }

  lemma ChangedEntry(t: Table, t': Table, key: Key)
    requires key in t' && t' == t[key := t'[key]] && t' != t
    ensures key !in t || t[key] != t'[key]
  {
  }

  // ---------------------------------------------------------------- stores that meet the conditions

  /**
   * Keys of one byte and three segments of one slot: the first holds the key 0 with value 0, the
   * second is free, and the third holds the key 0 with value 1.
   */
  function Sample(snapshot: Table, wal: Bytes): Files {
    Files(1, snapshot, wal, map[0 := SegFile([1], [Slot([0], [0])]),
                                1 := SegFile([0], [Slot([0], [0])]),
                                2 := SegFile([1], [Slot([0], [1])])])
  }

  /** A table with the key 0 in one of the segments. */
  function Entry(seg: SegId): Table {
    map[[0] := EncodeSlot(seg, 0)]
  }

  lemma SampleBits()
    ensures Bitmap.IsSet([1], 0) && !Bitmap.IsSet([0], 0)
  {
    assert Bitmap.Has(1, 0) && !Bitmap.Has(0, 0);
  }

  /** What reopening makes of a segment with a single slot. */
  lemma OneSlot(b: Bytes)
    ensures var m := Rebuilt(1, b);
            m.total == 1 && m.bitmap == b && m.cursor == m.used == (if Bitmap.IsSet(b, 0) then 1 else 0) &&
            m.state == if Bitmap.IsSet(b, 0) then SegState.Full else SegState.Idle
  {
    hide Bitmap.IsSet;
    assert Bitmap.Count(b, 0) == 0 && Bitmap.Count(b, 1) == if Bitmap.IsSet(b, 0) then 1 else 0;
  }

  lemma SampleMems(f: Files)
    requires f == Sample(f.snapshot, f.wal)
    ensures Formatted(f)
    ensures var mems := RebuiltMems(f);
            mems.Keys == {0, 1, 2} && mems[0] == mems[2] == Rebuilt(1, [1]) && mems[1] == Rebuilt(1, [0])
    ensures var m := Rebuilt(1, [1]); m.total == m.cursor == m.used == 1 && m.bitmap == [1] && m.state == SegState.Full
    ensures var m := Rebuilt(1, [0]);
            m.total == 1 && m.cursor == m.used == 0 && m.bitmap == [0] && m.state == SegState.Idle
  {
    SampleBits();
    OneSlot([1]);
    OneSlot([0]);
    hide Bitmap.IsSet, Rebuilt;
  }

  lemma SampleStores(f: Files, seg: SegId)
    requires f == Sample(f.snapshot, f.wal) && (seg == 0 || seg == 2)
    ensures Stored(f, [0], EncodeSlot(seg, 0)) && ValueAt(f, EncodeSlot(seg, 0)) == if seg == 0 then [0] else [1]
  {
    SampleBits();
    SlotRoundTrip(seg, 0);
    hide Bitmap.IsSet, EncodeSlot, SegmentOf, SlotOf, IsSlot;
  }

  lemma SampleRecovers(f: Files, seg: SegId)
    requires f == Sample(f.snapshot, f.wal) && (seg == 0 || seg == 2)
    requires RecoveredTable(f) == Entry(seg) || RecoveredTable(f) == map[]
    ensures Recoverable(f)
    ensures RecoveredTable(f) == Entry(seg) ==> View(RecoveredTable(f), f) == map[[0] := if seg == 0 then [0] else [1]]
    ensures RecoveredTable(f) == map[] ==> View(RecoveredTable(f), f) == map[]
  {
    hide Stored, ValueAt, EncodeSlot, RecoveredTable, Formatted, RebuiltMems, Rebuilt, Sample;
    SampleStores(f, seg);
    SampleMems(f);
    var t := RecoveredTable(f);
    assert forall k :: k in t ==> k == [0] && t[k] == EncodeSlot(seg, 0);
  }

  /** Restarts over the sample files. */
  method OpenSample(snapshot: Table, wal: Bytes, seg: SegId, checkpointBytes: nat) returns (s: Status, ix: Index)
    requires seg == 0 || seg == 2
    requires var t := RecoveredTable(Sample(snapshot, wal)); t == Entry(seg) || t == map[]
    ensures fresh(ix) && fresh(ix.disk) && fresh(ix.wal) && fresh(ix.mgr) && fresh(ix.mgr.segments.Values)
    ensures ix.checkpointBytes == checkpointBytes && ix.hasSnapshotDir && ix.valueSize == 1
    ensures s == Ok <==> !ix.disk.faulted
    ensures s == Ok ==>
              ix.Valid() && ix.wal.isOpen && Durable(ix) && ix.disk.files in ix.disk.seen &&
              ix.table == RecoveredTable(Sample(snapshot, wal)) && ix.disk.files == Cut(Sample(snapshot, wal)) &&
              ix.mgr.MemsNow() == RebuiltMems(Sample(snapshot, wal)) && ix.wal.written == |ix.disk.files.wal| &&
              ix.ViewNow() == View(ix.table, Sample(snapshot, wal)) &&
              ByState(ix.mgr.Classification(), ix.mgr.MemsNow())
  {
    hide Index.Valid, RecoveredTable, View, RebuiltMems, Cut, Recoverable, Formatted, SegmentManager.MemsNow,
         AllRecover, Sample, Entry, ByState;
    ghost var f := Sample(snapshot, wal);
    SampleIsOne(snapshot, wal);
    SampleMems(f);
    SampleRecovers(f, seg);
    var disk := new Disk(Sample(snapshot, wal));
    ghost var loaded;
    s, ix, loaded := Restart(disk, None, 1, checkpointBytes, true);
    if s == Ok {
      BeginRun(ix);
    }
  }

  lemma SampleIsOne(snapshot: Table, wal: Bytes)
    ensures var f := Sample(snapshot, wal);
            f == Sample(f.snapshot, f.wal) && f.keySize == 1 && f.wal == wal &&
            SlotAt(f, 0, 0) == Slot([0], [0]) && SlotAt(f, 2, 0) == Slot([0], [1])
  {
  }

  lemma EmptySample(t: Table)
    ensures RecoveredTable(Sample(t, [])) == t && Cut(Sample(t, [])) == Sample(t, [])
  {
    EmptyLogIsClean(Sample(t, []));
    hide GoodBytes;
  }

  /** The files recover the key 0; a restart with a small threshold, one compaction, and they do not any more. */
  method KeyIsLost() returns (s: Status, ix: Index)
    ensures Recovers(Sample(Entry(0), []), map[[0] := [0]])
    ensures !ix.disk.faulted ==> s == Ok && ix.ViewNow() == map[[0] := [0]] && !Recoverable(ix.disk.files)
  {
    hide Index.Valid, RecoveredTable, View, RebuiltMems, Cut, Recoverable, Formatted, SegmentManager.MemsNow,
         AllRecover, Sample, Entry, AllOwned, FitsBehind, Reaches, ByState;
    ghost var f := Sample(Entry(0), []);
    SampleIsOne(Entry(0), []);
    EmptySample(Entry(0));
    SampleRecovers(f, 0);
    s, ix := OpenSample(Entry(0), [], 0, 1);
    if s == Ok {
      ix.MemsCover();
      SampleMems(f);
      assert ix.mgr.segments[0] in ix.mgr.segments.Values && ix.mgr.segments[1] in ix.mgr.segments.Values;
      SampleCompacts(ix, f);
      s := CheckpointDuringMoveLosesKey(ix, 0, 1);
    }
  }

  lemma SampleCompacts(ix: Index, f: Files)
    requires f == Sample(Entry(0), []) && ix.disk.files == f && ix.mgr.MemsNow() == RebuiltMems(f)
    requires ix.checkpointBytes == 1 && ix.hasSnapshotDir && ix.wal.written == 0 && 0 in ix.mgr.segments
    ensures AllOwned(Point(Entry(0), ix.mgr.MemsNow(), f), {0}) && FitsBehind(ix.mgr.MemsNow(), 0, 1)
    ensures Reaches(ix, ix.wal.written, ix.mgr.segments[0].used, f.keySize)
  {
    SampleMems(f);
    ix.MemsCover();
    hide RebuiltMems, Rebuilt, SegmentManager.MemsNow, Bitmap.IsSet, EncodeSlot;
    LogBytesMore(0, 0, RecordSize(1));
  }

  /** A slot that no entry names: the files recover no key; after one move they recover the key 0. */
  method KeyIsRevived() returns (s: Status, ix: Index)
    ensures Recovers(Sample(map[], []), map[])
    ensures !ix.disk.faulted ==> s == Ok && ix.ViewNow() == map[] && Recovers(ix.disk.files, map[[0] := [0]])
  {
    hide Sample, RecoveredTable, View, Recovers, Recoverable;
    SampleIsOne(map[], []);
    EmptySample(map[]);
    SampleRecovers(Sample(map[], []), 0);
    assert Recovers(Sample(map[], []), map[]) by { RecoversMeans(Sample(map[], []), map[]); }
    s, ix := MoveLost(map[], 0, map[]);
    assert map[][[0] := [0]] == map[[0] := [0]];
  }

  /** The key 0 has the newer value 1; after moving the older slot the files recover the value 0. */
  method ValueIsReverted() returns (s: Status, ix: Index)
    ensures Recovers(Sample(Entry(2), []), map[[0] := [1]])
    ensures !ix.disk.faulted ==>
              s == Ok && ix.ViewNow() == map[[0] := [1]] && Recovers(ix.disk.files, map[[0] := [0]])
  {
    hide Sample, RecoveredTable, View, Recovers, Recoverable, Entry;
    SampleIsOne(Entry(2), []);
    EmptySample(Entry(2));
    SampleRecovers(Sample(Entry(2), []), 2);
    assert Recovers(Sample(Entry(2), []), map[[0] := [1]]) by {
      RecoversMeans(Sample(Entry(2), []), map[[0] := [1]]);
    }
    ghost var v: map<Key, Value> := map[[0] := [1]];
    s, ix := MoveLost(Entry(2), 2, v);
    assert v[[0] := [0]] == map[[0] := [0]];
  }

  lemma RecoversMeans(f: Files, v: map<Key, Value>)
    requires Recoverable(f) && View(RecoveredTable(f), f) == v
    ensures Recovers(f, v)
  {
  }

  /** Moves the first slot of the sample files, which no entry of the table names. */
  method MoveLost(t: Table, seg: SegId, ghost v: map<Key, Value>) returns (s: Status, ix: Index)
    requires ((t == map[] && seg == 0) || (t == Entry(2) && seg == 2)) && View(t, Sample(t, [])) == v
    ensures !ix.disk.faulted ==> s == Ok && ix.ViewNow() == v && Recovers(ix.disk.files, v[[0] := [0]])
  {
    hide Index.Valid, RecoveredTable, View, RebuiltMems, Cut, Recoverable, Formatted, SegmentManager.MemsNow,
         AllRecover, Sample, Entry, Bitmap.IsSet, RecordSize, SegmentOf, ByState, Recovers, Cleared, Owned,
         EncodeSlot;
    ghost var f := Sample(t, []);
    SampleIsOne(t, []);
    EmptySample(t);
    s, ix := OpenSample(t, [], seg, 0);
    if s == Ok {
      ix.MemsCover();
      SampleMems(f);
      SampleBits();
      FirstIsLost(t, f);
      assert ix.mgr.segments[1] in ix.mgr.segments.Values;
      s := MovingLostSlotRevivesKey(ix, 0, 0, 1);
    }
  }

  lemma FirstIsLost(t: Table, f: Files)
    requires (t == map[] || t == Entry(2)) && f == Sample(t, [])
    ensures !Owned(t, f, 0, 0) && Cleared(t, 0, 0)
  {
    SlotRoundTrip(0, 0);
    SlotRoundTrip(2, 0);
    hide EncodeSlot, SegmentOf, SlotOf;
  }

  /** A closed log that mentions the key 0: a put and a checkpoint succeed, and a restart forgets the put. */
  method PutIsForgotten() returns (s: Status, s': Status, s'': Status, ix: Index)
    ensures !ix.disk.faulted ==>
              s == s' == s'' == Ok && ix.ViewNow() == map[[0] := [1]] && !ix.Synced()
  {
    hide Index.Valid, RecoveredTable, View, RebuiltMems, Cut, Recoverable, Formatted, SegmentManager.MemsNow,
         AllRecover, Sample, Entry, Encode, WrittenBy, Replayed, EncodeSlot, ByState, SomeRoom, TwoFilled;
    var r := Record(INSERT, [0], EncodeSlot(0, 0), 0);
    s', s'' := Ok, Ok;
    LoggedSample(r);
    ghost var f := Sample(map[], Encode(r));
    SampleIsOne(map[], Encode(r));
    SampleRecovers(f, 0);
    s, ix := OpenSample(map[], Encode(r), 0, 0);
    if s == Ok {
      SampleMems(f);
      SampleHasRoom(ix.mgr.Classification(), ix.mgr.MemsNow(), f);
      CloseLog(ix);
      s', s'' := StaleLogWins(ix, [0], [1]);
      assert map[[0] := [0]][[0] := [1]] == map[[0] := [1]];
    }
  }

  lemma SampleHasRoom(c: Classes, mems: Mems, f: Files)
    requires f == Sample(f.snapshot, f.wal) && mems == RebuiltMems(f) && ByState(c, mems)
    ensures SomeRoom(c, mems) && !TwoFilled(c, mems)
  {
    SampleMems(f);
    hide RebuiltMems, Rebuilt;
    assert 1 in c.idle + c.appending && mems[1].cursor < mems[1].total;
  }

  lemma LoggedSample(r: Record)
    requires r == Record(INSERT, [0], EncodeSlot(0, 0), 0)
    ensures var f := Sample(map[], Encode(r));
            RecoveredTable(f) == Entry(0) && Cut(f) == f && Replayed(1, f.wal) == [r] && WrittenBy([r], [0])
  {
    hide Encode, EncodeSlot, Replayed, GoodBytes, Decode, RecordSize;
    AppendRecord([], r);
    assert [] + Encode(r) == Encode(r);
    NothingReplayed(1);
    NothingApplied(map[]);
    ApplyOne(map[], [], r);
    assert [] + [r] == [r];
    assert Writes([r][0], [0]);
  }

  /** What a rotation whose truncation fails leaves. */
  method CloseLog(ix: Index)
    requires ix.Valid()
    modifies ix.wal`isOpen
    ensures ix.Valid() && !ix.wal.isOpen && ix.ViewNow() == old(ix.ViewNow())
    ensures ix.mgr.MemsNow() == old(ix.mgr.MemsNow()) && ix.Synced() == old(ix.Synced())
  {
    hide Inv, LogClean, SegmentManager.Valid, SegmentManager.MemsNow, RecoveredTable;
    ix.wal.Close();
  }
}
