/**
 * Compaction of one segment into another: its slots are moved one by one, and then it is
 * emptied.
 */
module Compaction {
  import opened Base
  import opened Offset
  import opened WalCodec
  import opened Files
  import opened Disk
  import opened Segment
  import opened Store
  import opened Wal
  import opened Manager
  import opened Allocation
  import opened Index
  import opened Moves
  import Bitmap

  // ---------------------------------------------------------------- the log

  /** The number of bytes `n` records add. */
  function LogBytes(n: nat, recordSize: nat): nat {
    n * recordSize
  }

  /** Whether `n` more records take the log to the checkpoint threshold. */
  ghost predicate Reaches(ix: Index, written: nat, n: nat, keySize: nat) {
    n > 0 && ix.checkpointBytes > 0 && ix.hasSnapshotDir &&
    written + LogBytes(n, RecordSize(keySize)) >= ix.checkpointBytes
  }

  lemma LogBytesMore(n: nat, m: nat, recordSize: nat)
    ensures LogBytes(0, recordSize) == 0 && LogBytes(n + 1, recordSize) == LogBytes(n, recordSize) + recordSize
    ensures n <= m ==> LogBytes(n, recordSize) <= LogBytes(m, recordSize)
  {
    if n <= m {
      assert m * recordSize - n * recordSize == (m - n) * recordSize >= 0;
    }
  }

  lemma LogBytesAdd(n: nat, m: nat, recordSize: nat)
    ensures LogBytes(n + m, recordSize) == LogBytes(n, recordSize) + LogBytes(m, recordSize)
    ensures LogBytes(0, recordSize) == 0
  {
  }

  /** One more record: the threshold is reached by it, or was reached before. */
  lemma FiredReaches(ix: Index, w: nat, n: nat, keySize: nat)
    ensures LogBytes(n + 1, RecordSize(keySize)) == LogBytes(n, RecordSize(keySize)) + RecordSize(keySize)
    ensures Due(ix, w + LogBytes(n, RecordSize(keySize)), keySize) <==> Reaches(ix, w, n + 1, keySize)
    ensures Reaches(ix, w, n, keySize) ==> Reaches(ix, w, n + 1, keySize)
  {
    hide LogBytes, RecordSize;
    LogBytesMore(n, n + 1, RecordSize(keySize));
  }

  /**
   * What moves have done to the log, however many there were: while no checkpoint fires it
   * stays open, and the records are `kept` exactly if no log write has failed.
   */
  ghost predicate Tracked(l: Log, fired: bool, kept: bool, l': Log) {
    (fired || l'.isOpen ==> l.isOpen) && (l.faulted ==> l'.faulted) && (l.missed ==> l'.missed) &&
    (l.isOpen && !fired ==> l'.isOpen && (!l.missed ==> (kept <==> !l'.missed))) &&
    (l.isOpen && !l'.faulted ==> l'.isOpen && (kept <==> !fired))
  }

  /**
   * The log after moving `n` slots.  It has grown by at most one record for each, until one of
   * them reached the threshold, and by exactly one for each if they are all `kept`.
   */
  ghost predicate Growth(ix: Index, l: Log, n: nat, keySize: nat, fired: bool, kept: bool, l': Log) {
    Tracked(l, fired, kept, l') && (!l.isOpen ==> (kept <==> n == 0)) &&
    (l.isOpen && fired ==> Reaches(ix, l.written, n, keySize)) &&
    (l.isOpen && !fired ==>
       l'.written <= l.written + LogBytes(n, RecordSize(keySize)) &&
       (kept <==> l'.written == l.written + LogBytes(n, RecordSize(keySize)))) &&
    (l.isOpen && !l'.faulted ==> (fired <==> Reaches(ix, l.written, n, keySize)))
  }

  lemma GrowthMeans(ix: Index, l: Log, n: nat, keySize: nat, fired: bool, kept: bool, l': Log)
    requires Growth(ix, l, n, keySize, fired, kept, l')
    ensures Tracked(l, fired, kept, l')
    ensures l.isOpen && fired ==> Reaches(ix, l.written, n, keySize)
    ensures l.isOpen && !l'.faulted ==> (fired <==> Reaches(ix, l.written, n, keySize))
    ensures l.isOpen && !fired ==> l'.written <= l.written + LogBytes(n, RecordSize(keySize))
  {
    hide Reaches, Tracked;
  }

  /** The log after moving at most `n` slots. */
  ghost predicate Bounds(ix: Index, l: Log, n: nat, keySize: nat, fired: bool, kept: bool, l': Log) {
    Tracked(l, fired, kept, l') && (l.isOpen && fired ==> Reaches(ix, l.written, n, keySize)) &&
    (l.isOpen && !fired ==> l'.written <= l.written + LogBytes(n, RecordSize(keySize)))
  }

  lemma GrowthBounds(ix: Index, l: Log, n: nat, m: nat, keySize: nat, fired: bool, kept: bool, l': Log)
    requires Growth(ix, l, n, keySize, fired, kept, l') && n <= m
    ensures Bounds(ix, l, m, keySize, fired, kept, l')
  {
    hide LogBytes, RecordSize, Tracked;
    LogBytesMore(n, m, RecordSize(keySize));
  }

  /** A failure elsewhere leaves the log as it is. */
  lemma GrowthFaulted(ix: Index, l: Log, n: nat, keySize: nat, fired: bool, kept: bool, m: Log, l': Log)
    requires Growth(ix, l, n, keySize, fired, kept, m) && l' == m.(faulted := l'.faulted) && (m.faulted ==> l'.faulted)
    ensures Growth(ix, l, n, keySize, fired, kept, l')
  {
    hide Reaches, LogBytes, RecordSize;
  }

  lemma NothingLogged(ix: Index, l: Log, keySize: nat)
    ensures Growth(ix, l, 0, keySize, false, true, l)
  {
    LogBytesMore(0, 0, RecordSize(keySize));
  }

  /** One move adds one record, or none if it failed or lost its record. */
  lemma GrowthStep(ix: Index, l: Log, n: nat, keySize: nat, fired: bool, kept: bool, m: Log,
                   s: Status, fires: bool, keeps: bool, l': Log)
    requires Growth(ix, l, n, keySize, fired, kept, m) && LogStep(ix, m, keySize, s, fires, keeps, l')
    ensures Growth(ix, l, if s == Ok then n + 1 else n, keySize, fired || fires, kept && keeps, l')
  {
    hide LogBytes, RecordSize, Reaches, Due;
    FiredReaches(ix, l.written, n, keySize);
    DueEarlier(ix, m.written, l.written + LogBytes(n, RecordSize(keySize)), keySize);
  }

  lemma DueEarlier(ix: Index, w: nat, w': nat, keySize: nat)
    ensures w <= w' && Due(ix, w, keySize) ==> Due(ix, w', keySize)
    ensures RecordSize(keySize) > 0
  {
  }

  /** The log grows by the sum, and a checkpoint fires exactly if that reaches the threshold. */
  lemma GrowthAdds(ix: Index, l: Log, n: nat, keySize: nat, fired: bool, kept: bool, m: Log,
                   n': nat, fires: bool, keeps: bool, l': Log)
    requires Growth(ix, l, n, keySize, fired, kept, m) && Growth(ix, m, n', keySize, fires, keeps, l')
    ensures Growth(ix, l, n + n', keySize, fired || fires, kept && keeps, l')
  {
    hide LogBytes, RecordSize;
    LogBytesAdd(n, n', RecordSize(keySize));
    LogBytesMore(n, n + n', RecordSize(keySize));
  }

  // ---------------------------------------------------------------- copying

  /** What copying slots of one segment to another leaves of the segments' state. */
  ghost predicate CopiedTo(mems: Mems, mems': Mems, target: SegId, n: nat) {
    target in mems && mems'.Keys == mems.Keys &&
    (forall s :: s in mems && s != target ==> mems'[s] == mems[s]) &&
    mems'[target].total == mems[target].total && mems'[target].deleted == mems[target].deleted &&
    mems'[target].cursor == mems[target].cursor + n && mems'[target].used == mems[target].used + n
  }

  lemma CopiedOne(mems: Mems, mems': Mems, mems'': Mems, target: SegId, n: nat, moved: bool)
    requires CopiedTo(mems, mems', target, n) && Appending1(mems', mems'', target, moved)
    ensures CopiedTo(mems, mems'', target, if moved then n + 1 else n)
    ensures !moved ==> mems'' == mems'
  {
    hide Bitmap.Set, StateOf;
  }

  lemma {:induction false} CountGrows(b: Bytes, i: nat, n: nat)
    requires i <= n
    ensures Bitmap.Count(b, i) <= Bitmap.Count(b, n)
    decreases n
  {
    hide Bitmap.IsSet;
    if i < n {
      CountGrows(b, i, n - 1);
    }
  }

  lemma CountToCursor(m: SegMem)
    requires Consistent(m)
    ensures Bitmap.Count(m.bitmap, m.cursor) == m.used
  {
    Bitmap.CountBeyond(m.bitmap, m.cursor, m.total);
  }

  /** Once everything below the cursor is cleared, no entry names the segment. */
  lemma ClearedSegment(t: Table, mems: Mems, f: Files, src: SegId)
    requires Inv(t, mems, f) && src in mems && Cleared(t, src, mems[src].cursor)
    ensures forall k :: k in t ==> SegmentOf(t[k]) != src
  {
    hide SegmentOf, SlotOf, Store.Mounted, AllStored, Bitmap.IsSet;
    forall k | k in t
      ensures SegmentOf(t[k]) != src
    {
      assert Live(mems, t[k]);
    }
  }

  lemma SegmentsDiffer(ix: Index, src: SegId, target: SegId)
    requires ix.Valid() && src in ix.mgr.segments && target in ix.mgr.segments && src != target
    ensures ix.mgr.segments[src] != ix.mgr.segments[target]
  {
    hide Inv, Consistent, Partition, LogClean;
  }

  lemma SourceParts(ix: Index, src: SegId)
    requires ix.Valid() && src in ix.mgr.segments
    ensures var seg := ix.mgr.segments[src];
            seg.cursor <= seg.total <= 8 * |seg.bitmap| && seg.total <= SLOT_UNIT &&
            Bitmap.Count(seg.bitmap, 0) == 0 && Bitmap.Count(seg.bitmap, seg.cursor) == seg.used
    ensures ix.mgr.MemsNow().Keys == ix.mgr.segments.Keys && ix.mgr.MemsNow()[src] == ix.mgr.segments[src].Mem()
  {
    hide AllStored, Partition, LogClean;
    ix.MemsCover();
    CountToCursor(ix.mgr.MemsNow()[src]);
  }

  lemma CountStep(b: Bytes, i: nat, n: nat)
    requires i < n
    ensures Bitmap.Count(b, i + 1) == Bitmap.Count(b, i) + if Bitmap.IsSet(b, i) then 1 else 0
    ensures Bitmap.Count(b, i + 1) <= Bitmap.Count(b, n)
  {
    hide Bitmap.IsSet;
    CountGrows(b, i + 1, n);
  }

  /** A free slot is no entry's. */
  lemma SkipSlot(ix: Index, src: SegId, i: nat)
    requires ix.Valid() && src in ix.mgr.segments
    requires Cleared(ix.table, src, i) && !Bitmap.IsSet(ix.mgr.segments[src].bitmap, i)
    ensures Cleared(ix.table, src, i + 1) && Keeps(Here(ix), Here(ix), src, i, i + 1)
  {
    hide SegmentOf, SlotOf, Store.Mounted, AllStored, Bitmap.IsSet, LogClean, SegmentManager.MemsNow,
         SegmentManager.Valid, AllRecover, View, RecoveredTable, Owned;
    ix.MemsCover();
    forall k | k in ix.table && SegmentOf(ix.table[k]) == src
      ensures SlotOf(ix.table[k]) >= i + 1
    {
      assert Live(ix.mgr.MemsNow(), ix.table[k]);
    }
  }

  /** The slot to be moved next is owned. */
  lemma NextIsOwned(p: Point, q: Point, src: SegId, i: SlotId)
    requires AllOwned(p, {src}) && Keeps(p, q, src, 0, i)
    requires src in q.mems && i < q.mems[src].total && Bitmap.IsSet(q.mems[src].bitmap, i)
    ensures Owned(q.table, q.files, src, i)
  {
    hide Bitmap.IsSet, Owned;
    UnmovedIsOwned(p, {src}, src);
    assert OwnedBut(q, {src}, src, i);
  }

  /** What copying the slots below `i`, marked by `b`, has done since the store was at `p` with log `l`. */
  ghost predicate Copying(ix: Index, src: SegId, target: SegId, b: Bytes, p: Point, l: Log, i: nat,
                          fired: bool, kept: bool, q: Point, l': Log) {
    q.files.keySize == p.files.keySize && Cleared(q.table, src, i) &&
    CopiedTo(p.mems, q.mems, target, Bitmap.Count(b, i)) &&
    Growth(ix, l, Bitmap.Count(b, i), p.files.keySize, fired, kept, l') &&
    (l.isOpen && !l'.faulted && AllOwned(p, {src}) ==> KeepsStale(p, q, src, target, fired))
  }

  lemma CopyingMeans(ix: Index, src: SegId, target: SegId, b: Bytes, p: Point, l: Log, i: nat,
                     fired: bool, kept: bool, q: Point, l': Log)
    requires Copying(ix, src, target, b, p, l, i, fired, kept, q, l')
    ensures q.files.keySize == p.files.keySize && Cleared(q.table, src, i)
    ensures CopiedTo(p.mems, q.mems, target, Bitmap.Count(b, i))
    ensures Growth(ix, l, Bitmap.Count(b, i), p.files.keySize, fired, kept, l')
    ensures l.isOpen && !l'.faulted && AllOwned(p, {src}) ==> KeepsStale(p, q, src, target, fired)
  {
  }

  lemma CopyingStarts(ix: Index, src: SegId, target: SegId, b: Bytes, p: Point, l: Log)
    requires target in p.mems
    ensures Copying(ix, src, target, b, p, l, 0, false, true, p, l)
  {
    hide RecordSize, Growth, KeepsStale, AllOwned;
    NothingLogged(ix, l, p.files.keySize);
    KeepsStaleNothing(p, src, target);
  }

  lemma CopyingSkips(ix: Index, src: SegId, target: SegId, b: Bytes, p: Point, l: Log, i: nat,
                     fired: bool, kept: bool, q: Point, l': Log)
    requires Copying(ix, src, target, b, p, l, i, fired, kept, q, l')
    requires !Bitmap.IsSet(b, i) && Cleared(q.table, src, i + 1)
    ensures Copying(ix, src, target, b, p, l, i + 1, fired, kept, q, l')
  {
    hide Bitmap.IsSet, Growth, KeepsStale, CopiedTo, Cleared, AllOwned;
    CountStep(b, i, i + 1);
  }

  lemma CopyingStep(ix: Index, src: SegId, target: SegId, b: Bytes, p: Point, l: Log, i: nat, fired: bool, kept: bool,
                    q: Point, m: Log, s: Status, fires: bool, keeps: bool, r: Point, l': Log)
    requires Copying(ix, src, target, b, p, l, i, fired, kept, q, m)
    requires Bitmap.IsSet(b, i) && r.files.keySize == p.files.keySize
    requires Cleared(r.table, src, if s == Ok then i + 1 else i) && Appending1(q.mems, r.mems, target, s == Ok)
    requires LogStep(ix, m, p.files.keySize, s, fires, keeps, l')
    requires m.isOpen && !l'.faulted && AllOwned(p, {src}) && s == Ok ==> KeepsStale(q, r, src, target, fires)
    requires s != Ok ==> r.table == q.table && RecoveredTable(r.files) == RecoveredTable(q.files)
    ensures Copying(ix, src, target, b, p, l, if s == Ok then i + 1 else i, fired || fires, kept && keeps, r, l')
  {
    hide Bitmap.IsSet, Bitmap.Count, Growth, RecoveredTable, CopiedTo, Cleared, AllOwned, Appending1, RecordSize,
         Reaches, LogStep, KeepsStale;
    var n := Bitmap.Count(b, i);
    CountStep(b, i, i + 1);
    GrowthStep(ix, l, n, p.files.keySize, fired, kept, m, s, fires, keeps, l');
    CopiedOne(p.mems, q.mems, r.mems, target, n, s == Ok);
    StepTracked(ix, m, p.files.keySize, s, fires, keeps, l');
    GrowthMeans(ix, l, n, p.files.keySize, fired, kept, m);
    if l.isOpen && !l'.faulted && AllOwned(p, {src}) {
      if s == Ok {
        KeepsStaleBoth(p, q, r, src, target, fired, fires);
      } else {
        KeepsStaleSame(p, q, r, src, target, fired);
      }
    }
  }

  lemma StepTracked(ix: Index, l: Log, keySize: nat, s: Status, fired: bool, kept: bool, l': Log)
    requires LogStep(ix, l, keySize, s, fired, kept, l')
    ensures Tracked(l, fired, kept, l') && (s != Ok ==> !fired)
  {
  }

  /** Slot `i` of a copying that began at `p` with log `l`. */
  method CopyNext(ix: Index, src: SegId, i: SlotId, target: SegId, ghost p: Point, ghost l: Log,
                  ghost fired: bool, ghost kept: bool)
      returns (s: Status, ghost fired': bool, ghost kept': bool)
    requires ix.Valid() && src in ix.mgr.segments && target in ix.mgr.segments && src != target
    requires i < ix.mgr.segments[src].cursor && ix.disk.files in ix.disk.seen
    requires Copying(ix, src, target, ix.mgr.segments[src].bitmap, p, l, i, fired, kept, Here(ix), LogHere(ix))
    requires Keeps(p, Here(ix), src, 0, i)
    modifies ix`table, ix.mgr.segments[target], ix.wal, ix.disk
    ensures ix.Valid() && ix.disk.files in ix.disk.seen
    ensures s == Ok || s == Status.Full || Failure(s)
    ensures Failure(s) ==> ix.disk.faulted
    ensures ix.ViewNow() == old(ix.ViewNow())
    ensures Copying(ix, src, target, ix.mgr.segments[src].bitmap, p, l, if s == Ok then i + 1 else i,
                    fired', kept', Here(ix), LogHere(ix))
    ensures s == Ok || s == Status.Full ==> Keeps(p, Here(ix), src, 0, if s == Ok then i + 1 else i)
    ensures s != Ok ==> Bitmap.IsSet(ix.mgr.segments[src].bitmap, i)
    ensures s == Status.Full && !ix.disk.faulted ==> AtEnd(ix.mgr.MemsNow(), target)
    ensures kept' ==> kept
    ensures AllOwned(p, {src}) ==>
              (old(SoundNow(ix)) ==> SoundNow(ix)) && (old(ix.Synced()) && kept' ==> ix.Synced())
  {
    hide Index.Valid, Index.ViewNow, SoundNow, KeepsStale, RecoveredTable, Keeps, AllOwned, Owned, Cleared, Appending1,
         CopiedTo, LogStep, Growth, SegmentManager.MemsNow, Bitmap.IsSet, Bitmap.Count, Copying, Recovers, EncodeSlot,
         SlotAt;
    s, fired', kept' := Ok, fired, kept;
    ghost var b, q, m := ix.mgr.segments[src].bitmap, Here(ix), LogHere(ix);
    SegmentsDiffer(ix, src, target);
    SourceParts(ix, src);
    CopyingMeans(ix, src, target, b, p, l, i, fired, kept, q, m);
    if !Bitmap.IsSet(ix.mgr.segments[src].bitmap, i) {
      SkipSlot(ix, src, i);
      CopyingSkips(ix, src, target, b, p, l, i, fired, kept, q, m);
    } else {
      if AllOwned(p, {src}) {
        NextIsOwned(p, q, src, i);
      }
      ghost var fires, keeps;
      s, fires, keeps := MoveSlot(ix, src, i, target);
      CopyingStep(ix, src, target, b, p, l, i, fired, kept, q, m, s, fires, keeps, Here(ix), LogHere(ix));
      fired', kept' := fired || fires, kept && keeps;
    }
    if s == Ok {
      KeepsBoth(p, q, Here(ix), src, 0, i, i + 1);
    }
  }

  /** Copies every occupied slot of `src`, in order; stops at the first failure. */
  method CopyAll(ix: Index, src: SegId, target: SegId)
      returns (s: Status, ghost done: nat, ghost fired: bool, ghost kept: bool)
    requires ix.Valid() && src in ix.mgr.segments && target in ix.mgr.segments && src != target
    requires ix.disk.files in ix.disk.seen
    modifies ix`table, ix.mgr.segments[target], ix.wal, ix.disk
    ensures ix.disk.files.keySize == old(ix.disk.files).keySize
    ensures ix.Valid() && ix.disk.files in ix.disk.seen
    ensures s == Ok || s == Status.Full || Failure(s)
    ensures Failure(s) ==> ix.disk.faulted
    ensures ix.ViewNow() == old(ix.ViewNow())
    ensures done <= ix.mgr.segments[src].cursor && (s == Ok <==> done == ix.mgr.segments[src].cursor)
    ensures Cleared(ix.table, src, done)
    ensures CopiedTo(old(ix.mgr.MemsNow()), ix.mgr.MemsNow(), target, Bitmap.Count(ix.mgr.segments[src].bitmap, done))
    ensures s == Status.Full && !ix.disk.faulted ==>
              AtEnd(ix.mgr.MemsNow(), target) &&
              Bitmap.Count(ix.mgr.segments[src].bitmap, done) < ix.mgr.segments[src].used
    ensures s == Ok || s == Status.Full ==> Keeps(old(Here(ix)), Here(ix), src, 0, done)
    ensures Growth(ix, old(LogHere(ix)), Bitmap.Count(ix.mgr.segments[src].bitmap, done), old(ix.disk.files).keySize,
                   fired, kept, LogHere(ix))
    // Nothing is lost before the source is emptied, and memory agrees while every record is kept.
    ensures AllOwned(old(Here(ix)), {src}) ==>
              (old(SoundNow(ix)) ==> SoundNow(ix)) && (old(ix.Synced()) && kept ==> ix.Synced())
    ensures old(ix.wal.isOpen) && !ix.disk.faulted && s == Ok && AllOwned(old(Here(ix)), {src}) ==>
              KeepsStale(old(Here(ix)), Here(ix), src, target, fired)
  {
    hide Index.Valid, Index.ViewNow, SoundNow, KeepsStale, RecoveredTable, Keeps, AllOwned, Cleared, CopiedTo, Growth,
         SegmentManager.MemsNow, Bitmap.IsSet, Bitmap.Count, Copying;
    s, done, fired, kept := Ok, 0, false, true;
    var seg := ix.mgr.segments[src];
    ghost var b, p, l := seg.bitmap, Here(ix), LogHere(ix);
    SegmentsDiffer(ix, src, target);
    SourceParts(ix, src);
    CopyingStarts(ix, src, target, b, p, l);
    KeepsNothing(p, src, 0);
    var i := 0;
    while i < seg.cursor
      invariant s == Ok && i == done <= seg.cursor && ix.mgr.segments == old(ix.mgr.segments)
      invariant ix.Valid() && ix.disk.files in ix.disk.seen
      invariant ix.ViewNow() == old(ix.ViewNow())
      invariant Copying(ix, src, target, b, p, l, i, fired, kept, Here(ix), LogHere(ix))
      invariant Keeps(p, Here(ix), src, 0, i)
      invariant AllOwned(p, {src}) ==>
                  (old(SoundNow(ix)) ==> SoundNow(ix)) && (old(ix.Synced()) && kept ==> ix.Synced())
    {
      SourceParts(ix, src);
      CountStep(b, i, seg.cursor);
      s, fired, kept := CopyNext(ix, src, i, target, p, l, fired, kept);
      if s != Ok {
        break;
      }
      i := i + 1;
      done := i;
    }
    CopyingMeans(ix, src, target, b, p, l, i, fired, kept, Here(ix), LogHere(ix));
  }

  // ---------------------------------------------------------------- emptying

  /** Emptying a segment that no entry names any more. */
  lemma RecyclePhase(t: Table, mems: Mems, f: Files, src: SegId, f': Files, seen: iset<Files>, seen': iset<Files>)
    requires Inv(t, mems, f) && src in mems && (forall k :: k in t ==> SegmentOf(t[k]) != src)
    requires BitmapTouched(f, f', src, Emptied(mems[src]).bitmap)
    requires forall d :: d in seen' ==> d in seen || BitmapTouched(f, d, src, Emptied(mems[src]).bitmap)
    ensures Inv(t, mems[src := Emptied(mems[src])], f')
    ensures View(t, f') == View(t, f) && RecoveredTable(f') == RecoveredTable(f)
    ensures f'.keySize == f.keySize && f'.wal == f.wal && f'.snapshot == f.snapshot
    ensures RecoveredTable(f) == t && AllRecover(seen, View(t, f)) ==> AllRecover(seen', View(t, f))
  {
    hide Inv, View, RecoveredTable, Emptied, Recovers, BitmapTouched, SegmentOf;
    RecycleKeeps(t, mems, f, src, f');
    BitmapOnly(f, f', src, Emptied(mems[src]).bitmap);
    if RecoveredTable(f) == t && AllRecover(seen, View(t, f)) {
      forall d | d in seen'
        ensures Recovers(d, View(t, f))
      {
        if d !in seen {
          RecycleKeeps(t, mems, f, src, d);
          RecoversSame(t, mems[src := Emptied(mems[src])], d, View(t, f));
        }
      }
    }
  }

  /** Emptying a moved segment keeps the ownership of slots, once the bitmap is on disk. */
  lemma RecycleOwned(p: Point, src: SegId, f': Files)
    requires Inv(p.table, p.mems, p.files) && src in p.mems
    requires BitmapTouched(p.files, f', src, Emptied(p.mems[src]).bitmap)
    requires src in f'.segs && f'.segs[src].bitmap == Emptied(p.mems[src]).bitmap
    ensures var q := Point(p.table, p.mems[src := Emptied(p.mems[src])], f');
            Keeps(p, q, src, p.mems[src].cursor, 0) && Flushed(q, src)
  {
    RecycleFlushes(p, src, f', Emptied(p.mems[src]));
    hide Inv, Emptied, BitmapTouched, OwnedBut, Flushed;
    BitmapOnly(p.files, f', src, Emptied(p.mems[src]).bitmap);
    InvParts(p.table, p.mems, p.files);
    var q := Point(p.table, p.mems[src := Emptied(p.mems[src])], f');
    forall ids | src in ids && OwnedBut(p, ids, src, p.mems[src].cursor)
      ensures OwnedBut(q, ids, src, 0)
    {
      OwnedRecycled(p, ids, src, f');
    }
  }

  lemma RecycleFlushes(p: Point, src: SegId, f': Files, m: SegMem)
    requires src in p.mems && BitmapTouched(p.files, f', src, m.bitmap)
    requires src in f'.segs && f'.segs[src].bitmap == m.bitmap
    ensures var q := Point(p.table, p.mems[src := m], f'); KeepsFlushed(p, q) && Flushed(q, src)
  {
    assert Touched(p.files, f', src, 0, m.bitmap);
    hide Bitmap.IsSet;
  }

  lemma BitmapOnly(f: Files, d: Files, src: SegId, b: Bytes)
    requires BitmapTouched(f, d, src, b)
    ensures SameSlots(f, d) && d.keySize == f.keySize && d.wal == f.wal && d.snapshot == f.snapshot
  {
    BitmapTouchedShape(f, d, src, b);
  }

  lemma OwnedRecycled(p: Point, ids: set<SegId>, src: SegId, d: Files)
    requires Store.Mounted(p.mems, p.files) && src in p.mems && SameSlots(p.files, d)
    requires OwnedBut(p, ids, src, p.mems[src].cursor)
    ensures OwnedBut(Point(p.table, p.mems[src := Emptied(p.mems[src])], d), ids, src, 0)
  {
    hide Bitmap.IsSet, EncodeSlot, Bitmap.Empty, Consistent;
    var mems' := p.mems[src := Emptied(p.mems[src])];
    forall s: SegId, i: SlotId | s in ids && s in mems' && i < mems'[s].total && Bitmap.IsSet(mems'[s].bitmap, i)
      ensures Owned(p.table, d, s, i)
    {
      if s == src {
        Bitmap.EmptyAt(|p.mems[src].bitmap|, i);
        assert false;
      }
      assert Owned(p.table, p.files, s, i);
    }
  }

  /** Where every occupied slot has an entry, recovery finds no key in a place it was moved from. */
  lemma StaleIsLost(p: Point, gone: set<SegId>, left: set<SegId>)
    requires Inv(p.table, p.mems, p.files) && AllOwned(p, gone) && (forall s :: s in gone ==> Flushed(p, s))
    requires Stale(p, gone, left)
    ensures !Recoverable(p.files)
  {
    hide RecoveredTable, SegmentOf, SlotOf, IsSlot, EncodeSlot, Bitmap.IsSet, Inv, Consistent;
    InvParts(p.table, p.mems, p.files);
    var t, r := p.table, RecoveredTable(p.files);
    var k :| k in r && k in t && r[k] != t[k] && SegmentOf(r[k]) in gone && SegmentOf(t[k]) !in left;
    var s, i := SegmentOf(r[k]), SlotOf(r[k]);
    assert Flushed(p, s);
    if Stored(p.files, k, r[k]) {
      assert Owned(t, p.files, s, i);
      SlotIsItself(r[k]);
      assert false;
    }
  }

  /** Empties a segment that no entry names, in memory whether or not the flush succeeds. */
  method EmptySource(ix: Index, src: SegId) returns (s: Status)
    requires ix.Valid() && src in ix.mgr.segments && ix.disk.files in ix.disk.seen
    requires forall k :: k in ix.table ==> SegmentOf(ix.table[k]) != src
    modifies ix.mgr.segments[src], ix.disk
    ensures ix.Valid() && ix.disk.files in ix.disk.seen && ix.disk.files.keySize == old(ix.disk.files).keySize
    ensures s == Ok || s == IOError
    ensures ix.disk.faulted == (old(ix.disk.faulted) || s == IOError) && ix.disk.logFaulted == old(ix.disk.logFaulted)
    ensures src in old(ix.mgr.MemsNow()) &&
            ix.mgr.MemsNow() == old(ix.mgr.MemsNow())[src := Emptied(old(ix.mgr.MemsNow())[src])]
    ensures ix.ViewNow() == old(ix.ViewNow()) && RecoveredTable(ix.disk.files) == RecoveredTable(old(ix.disk.files))
    ensures old(Durable(ix)) ==> Durable(ix)
    ensures s == Ok ==> Flushed(Here(ix), src)
    ensures s == Ok ==> Keeps(old(Here(ix)), Here(ix), src, old(ix.mgr.MemsNow())[src].cursor, 0)
  {
    hide Inv, LogClean, View, RecoveredTable, AllRecover, Keeps, SegmentManager.Valid, SegmentManager.MemsNow,
         Consistent, BitmapTouched, Emptied, SegmentOf, Store.Mounted;
    ghost var p, seen := Here(ix), ix.disk.seen;
    ix.MemsCover();
    InvParts(p.table, p.mems, p.files);
    s := ix.mgr.RecycleSegment(src);
    RecyclePhase(p.table, p.mems, p.files, src, ix.disk.files, seen, ix.disk.seen);
    LogSame(p.files, ix.disk.files);
    if s == Ok {
      RecycleOwned(p, src, ix.disk.files);
    }
  }

  lemma LogSame(f: Files, d: Files)
    requires d.wal == f.wal && d.keySize == f.keySize
    ensures forall w: nat :: LogClean(f, w) ==> LogClean(d, w)
  {
  }

  // ---------------------------------------------------------------- one compaction

  lemma CopiedFits(t: Table, mems: Mems, mems': Mems, f: Files, src: SegId, target: SegId, n: nat)
    requires CopiedTo(mems, mems', target, n) && src in mems && src != target && Inv(t, mems', f)
    ensures n <= mems[src].used ==> Compacted(mems, mems', src, target, n, false)
    ensures n == mems[src].used ==> Compacted(mems, mems'[src := Emptied(mems'[src])], src, target, n, true)
    ensures n == mems[src].used ==> FitsBehind(mems, src, target)
    ensures n < mems[src].used && mems'[target].cursor == mems'[target].total ==> !FitsBehind(mems, src, target)
  {
    hide Bitmap.Empty, AllStored, Bitmap.IsSet, Bitmap.Count;
    InRange(mems'[target]);
    hide Consistent;
  }

  /** `moved` slots came to `target`; when all of them had, `src` was emptied. */
  ghost predicate Compacted(mems: Mems, mems': Mems, src: SegId, target: SegId, moved: nat, emptied: bool) {
    src in mems && target in mems && mems'.Keys == mems.Keys &&
    (forall x :: x in mems && x != target && x != src ==> mems'[x] == mems[x]) &&
    mems'[target].total == mems[target].total && mems'[target].deleted == mems[target].deleted &&
    mems'[target].used == mems[target].used + moved && mems'[target].cursor == mems[target].cursor + moved &&
    mems'[src] == (if emptied then Emptied(mems[src]) else mems[src]) &&
    moved <= mems[src].used && (emptied ==> moved == mems[src].used)
  }

  ghost predicate FitsBehind(mems: Mems, src: SegId, target: SegId) {
    src in mems && target in mems && mems[src].used <= mems[target].total - mems[target].cursor
  }

  /**
   * Compacts `src` into `target`: the map stays what it was at every step, whatever fails.
   * Without failures it succeeds exactly when the live slots fit behind the target's cursor.
   * `moved` slots were copied and remapped; `kept` says that the records of all of them are in
   * the log, `emptied` that no slot was left and the source has been emptied in memory.
   */
  method Compact(ix: Index, src: SegId, target: SegId)
      returns (s: Status, ghost fired: bool, ghost kept: bool, ghost moved: nat, ghost emptied: bool)
    requires ix.Valid() && src in ix.mgr.segments && target in ix.mgr.segments && src != target
    requires ix.disk.files in ix.disk.seen
    modifies ix`table, ix.mgr.segments[src], ix.mgr.segments[target], ix.wal, ix.disk
    ensures ix.disk.files.keySize == old(ix.disk.files).keySize
    ensures ix.Valid() && ix.disk.files in ix.disk.seen
    ensures s == Ok || s == Status.Full || Failure(s)
    ensures Failure(s) ==> ix.disk.faulted
    ensures ix.ViewNow() == old(ix.ViewNow())
    ensures (s == Ok ==> emptied) && (s == Status.Full ==> !emptied)
    ensures emptied ==> forall k :: k in ix.table ==> SegmentOf(ix.table[k]) != src
    ensures Compacted(old(ix.mgr.MemsNow()), ix.mgr.MemsNow(), src, target, moved, emptied)
    ensures !ix.disk.faulted ==> (s == Ok <==> FitsBehind(old(ix.mgr.MemsNow()), src, target))
    ensures !ix.disk.faulted && s == Status.Full ==> AtEnd(ix.mgr.MemsNow(), target)
    // No slot is lost by a finished compaction, whatever happens to the log.
    ensures s == Ok ==> Keeps(old(Here(ix)), Here(ix), src, 0, 0) && Flushed(Here(ix), src)
    // The log grows by one record for each slot moved; a checkpoint fires exactly if that reaches the threshold.
    ensures Growth(ix, old(LogHere(ix)), moved, old(ix.disk.files).keySize, fired, kept, LogHere(ix))
    ensures moved <= old(ix.mgr.segments[src].used) && (emptied ==> moved == old(ix.mgr.segments[src].used))
    // Recovery survives if no record of an emptied source is missing, whatever else fails.
    ensures old(Durable(ix)) && AllOwned(old(Here(ix)), {src}) ==>
              (kept || !emptied ==> AllRecover(ix.disk.seen, ix.ViewNow())) && (kept ==> Durable(ix))
    // Without failures that is so exactly without a checkpoint, when every slot moved has an entry.
    ensures !ix.disk.faulted && fired && s == Ok && AllOwned(old(Here(ix)), {src}) ==> !Recoverable(ix.disk.files)
    ensures old(Durable(ix)) && old(ix.wal.isOpen) && !ix.disk.faulted && s == Ok && AllOwned(old(Here(ix)), {src}) ==>
              (Recoverable(ix.disk.files) <==>
               !Reaches(ix, old(ix.wal.written), old(ix.mgr.segments[src].used), old(ix.disk.files).keySize))
    ensures old(ix.wal.isOpen) && !ix.disk.faulted && s == Ok && AllOwned(old(Here(ix)), {src}) ==>
              KeepsStale(old(Here(ix)), Here(ix), src, target, fired)
  {
    hide Index.Valid, Inv, View, RecoveredTable, AllRecover, Keeps, AllOwned, Cleared, CopiedTo, Bitmap.Count,
         SegmentManager.Valid, SegmentManager.MemsNow, Bitmap.IsSet, Consistent, KeepsStale, SoundNow,
         Emptied, SegmentOf, SlotOf, Compacted, FitsBehind, Reaches, Growth, Recoverable, Flushed, Tracked;
    emptied := false;
    ghost var p, l := Here(ix), LogHere(ix);
    SourceParts(ix, src);
    SegmentsDiffer(ix, src, target);
    if Durable(ix) {
      DurableIsSound(ix);
    }
    ghost var done;
    s, done, fired, kept := CopyAll(ix, src, target);
    SoundRecovers(ix);
    ghost var q, m := Here(ix), LogHere(ix);
    moved := Bitmap.Count(p.mems[src].bitmap, done);
    SourceParts(ix, src);
    CountGrows(p.mems[src].bitmap, done, p.mems[src].cursor);
    InvNow(ix);
    CopiedFits(q.table, p.mems, q.mems, q.files, src, target, moved);
    if s != Ok {
      return;
    }
    ClearedSegment(q.table, q.mems, q.files, src);
    s := EmptySource(ix, src);
    emptied := true;
    GrowthFaulted(ix, l, moved, p.files.keySize, fired, kept, m, LogHere(ix));
    if s == Ok {
      KeepsBoth(p, q, Here(ix), src, 0, done, 0);
      FinishedRecovers(ix, p, l, q, Here(ix), LogHere(ix), src, target, fired, kept);
    }
  }

  /** What a finished compaction that moved owned slots only leaves to recovery. */
  lemma FinishedRecovers(ix: Index, p: Point, l: Log, q: Point, r: Point, l': Log, src: SegId, target: SegId,
                         fired: bool, kept: bool)
    requires ix.Valid() && r == Here(ix) && ix.disk.files in ix.disk.seen && src in p.mems && src != target
    requires Growth(ix, l, p.mems[src].used, p.files.keySize, fired, kept, l') && Keeps(p, r, src, 0, 0)
    requires r.table == q.table && RecoveredTable(r.files) == RecoveredTable(q.files) && Flushed(r, src)
    requires l.isOpen && !l'.faulted && AllOwned(p, {src}) ==> KeepsStale(p, q, src, target, fired)
    ensures l.isOpen && !l'.faulted && AllOwned(p, {src}) ==> KeepsStale(p, r, src, target, fired)
    ensures !l'.faulted && fired && AllOwned(p, {src}) ==> !Recoverable(r.files)
    ensures l.isOpen && !l'.faulted && (kept ==> Durable(ix)) && AllOwned(p, {src}) ==>
              (Recoverable(r.files) <==> !Reaches(ix, l.written, p.mems[src].used, p.files.keySize))
  {
    hide Index.Valid, RecoveredTable, AllRecover, Keeps, AllOwned, SegmentManager.MemsNow, KeepsStale, Reaches, Growth,
         Recoverable, Flushed, Durable;
    GrowthMeans(ix, l, p.mems[src].used, p.files.keySize, fired, kept, l');
    if l.isOpen && !l'.faulted && AllOwned(p, {src}) {
      KeepsStaleSame(p, q, r, src, target, fired);
      if fired {
        InvNow(ix);
        FiredLoses(p, r, src, target);
      } else if Durable(ix) {
        DurableRecovers(ix);
      }
    }
  }

  lemma InvNow(ix: Index)
    requires ix.Valid()
    ensures Inv(ix.table, ix.mgr.MemsNow(), ix.disk.files)
  {
    hide Inv;
  }

  lemma SoundRecovers(ix: Index)
    ensures SoundNow(ix) ==> AllRecover(ix.disk.seen, ix.ViewNow())
  {
  }

  lemma DurableRecovers(ix: Index)
    requires Durable(ix) && ix.disk.files in ix.disk.seen
    ensures Recoverable(ix.disk.files)
  {
    hide RecoveredTable, View, AllStored;
  }

  /** Ownership is kept for every set of segments that has those in `must`. */
  ghost predicate KeepsOwned(p: Point, q: Point, must: set<SegId>) {
    KeepsFlushed(p, q) && forall ids :: must <= ids && AllOwned(p, ids) ==> AllOwned(q, ids)
  }

  lemma KeepsIsOwned(p: Point, q: Point, src: SegId)
    requires Keeps(p, q, src, 0, 0)
    ensures KeepsOwned(p, q, {src})
  {
    hide OwnedBut, AllOwned;
    forall ids | {src} <= ids && AllOwned(p, ids)
      ensures AllOwned(q, ids)
    {
      assert src in ids;
      UnmovedIsOwned(p, ids, src);
      UnmovedIsOwned(q, ids, src);
    }
  }

  /** A checkpoint in the middle of a finished compaction. */
  lemma FiredLoses(p: Point, q: Point, src: SegId, target: SegId)
    requires Inv(q.table, q.mems, q.files) && Keeps(p, q, src, 0, 0) && AllOwned(p, {src})
    requires Flushed(q, src) && src != target && KeepsStale(p, q, src, target, true)
    ensures !Recoverable(q.files)
  {
    hide Inv, AllOwned, Recoverable, Stale, Flushed, OwnedBut;
    KeepsIsOwned(p, q, src);
    assert AllOwned(q, {src});
    assert Stale(q, {src}, {src});
    StaleIsLost(q, {src}, {src});
  }
}
