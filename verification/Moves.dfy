/**
 * Moving one slot.  The move callback is called in place: it logs the new offset and then
 * rewrites the entry if it still names the old slot.
 */
module Moves {
  import opened Base
  import opened Offset
  import opened WalCodec
  import opened Files
  import opened Segment
  import opened Store
  import opened Wal
  import opened Manager
  import opened Index
  import Bitmap

  /** Table, segments and files of a store at one moment. */
  datatype Point = Point(table: Table, mems: Mems, files: Files)

  ghost function Here(ix: Index): Point
    reads ix, ix.mgr, ix.mgr.segments.Values, ix.disk
  {
    Point(ix.table, ix.mgr.MemsNow(), ix.disk.files)
  }

  /** The log at one moment; `faulted` and `missed` say whether a request, or a log write, has failed. */
  datatype Log = Log(isOpen: bool, written: nat, faulted: bool, missed: bool)

  ghost function LogHere(ix: Index): Log
    reads ix.wal, ix.disk
  {
    Log(ix.wal.isOpen, ix.wal.written, ix.disk.faulted, ix.disk.logFaulted)
  }

  /** Recovery from `d` yields exactly the map `v`. */
  ghost predicate Recovers(d: Files, v: map<Key, Value>) {
    Recoverable(d) && View(RecoveredTable(d), d) == v
  }

  ghost predicate AllRecover(seen: iset<Files>, v: map<Key, Value>) {
    forall d :: d in seen ==> Recovers(d, v)
  }

  /** Compare-and-set of one entry. */
  function Remapped(t: Table, key: Key, a: U64, a': U64): Table {
    if key in t && t[key] == a then t[key := a'] else t
  }

  /**
   * What a slot move does to recovery: with the record in the log recovery has the new
   * offset, without it the old table.  It agrees with memory exactly when the record is
   * there if and only if the entry was remapped.
   */
  lemma MoveKeepsRecoveryIff(t: Table, key: Key, a: U64, a': U64, logged: bool)
    requires forall k :: k in t ==> t[k] != a'
    ensures (if logged then t[key := a'] else t) == Remapped(t, key, a, a') <==>
            (logged <==> key in t && t[key] == a)
  {
    assert t[key := a'][key] == a';
    if logged && !(key in t && t[key] == a) {
      if key in t {
        assert t[key := a'][key] != t[key];
      } else {
        assert key in t[key := a'] && key !in t;
      }
    }
  }

  /** Every occupied slot of the segments `ids` belongs to an entry, except those of `src` below `i`. */
  ghost predicate OwnedBut(p: Point, ids: set<SegId>, src: SegId, i: nat) {
    forall s: SegId, j: SlotId ::
      s in ids && s in p.mems && j < p.mems[s].total && Bitmap.IsSet(p.mems[s].bitmap, j) ==>
        (s == src && j < i) || Owned(p.table, p.files, s, j)
  }

  /** Every occupied slot of the segments `ids` belongs to an entry. */
  ghost predicate AllOwned(p: Point, ids: set<SegId>) {
    OwnedBut(p, ids, 0, 0)
  }

  lemma UnmovedIsOwned(p: Point, ids: set<SegId>, src: SegId)
    ensures AllOwned(p, ids) <==> OwnedBut(p, ids, src, 0)
  {
    hide Bitmap.IsSet, Owned;
  }

  lemma ConservedIffOwned(p: Point)
    ensures Conserved(p.table, p.mems, p.files) <==> AllOwned(p, p.mems.Keys)
  {
    hide Bitmap.IsSet, Owned, EncodeSlot;
  }

  lemma FewerOwned(p: Point, ids: set<SegId>, fewer: set<SegId>)
    requires AllOwned(p, ids) && fewer <= ids
    ensures AllOwned(p, fewer)
  {
    hide Bitmap.IsSet, Owned;
  }

  /** The bitmap of segment `s` is on disk as it is in memory. */
  ghost predicate Flushed(p: Point, s: SegId) {
    s in p.mems && s in p.files.segs && p.files.segs[s].bitmap == p.mems[s].bitmap
  }

  ghost predicate KeepsFlushed(p: Point, q: Point) {
    forall s :: Flushed(p, s) ==> Flushed(q, s)
  }

  /**
   * Between two moments, ownership below `i` turned into ownership below `i'`, for every set
   * of segments with `src` in it, and flushed bitmaps stay so.  Nothing here depends on the log.
   */
  ghost predicate Keeps(p: Point, q: Point, src: SegId, i: nat, i': nat) {
    KeepsFlushed(p, q) && forall ids :: src in ids && OwnedBut(p, ids, src, i) ==> OwnedBut(q, ids, src, i')
  }

  lemma KeepsBoth(p: Point, q: Point, r: Point, src: SegId, i: nat, i': nat, i'': nat)
    requires Keeps(p, q, src, i, i') && Keeps(q, r, src, i', i'')
    ensures Keeps(p, r, src, i, i'')
  {
    hide OwnedBut, Flushed;
  }

  lemma KeepsNothing(p: Point, src: SegId, i: nat)
    ensures Keeps(p, p, src, i, i)
  {
  }

  /** No entry is left in `src` below slot `i`. */
  ghost predicate Cleared(t: Table, src: SegId, i: nat) {
    forall k :: k in t && SegmentOf(t[k]) == src ==> SlotOf(t[k]) >= i
  }

  /** After the compare-and-set no entry names the old slot. */
  lemma RemapClears(t: Table, f: Files, src: SegId, i: nat, key: Key, a: U64, a': U64)
    requires AllStored(t, f) && Cleared(t, src, i) && IsSlot(a) && SegmentOf(a) == src && SlotOf(a) == i
    requires SegmentOf(a') != src && src in f.segs && i < |f.segs[src].slots| && f.segs[src].slots[i].key == key
    ensures Cleared(Remapped(t, key, a, a'), src, i + 1)
  {
    hide Flag, SegmentOf, SlotOf, EncodeSlot, Bitmap.IsSet;
    forall k | k in t && SegmentOf(t[k]) == src && SlotOf(t[k]) == i
      ensures k == key && t[key] == a
    {
      assert Stored(f, k, t[k]);
    }
  }

  /** Remapping after the copy keeps the invariant and the map. */
  lemma MovePhase(t: Table, mems: Mems, f: Files, mems': Mems, f': Files, a: U64, a': U64, key: Key, value: Value)
    requires Inv(t, mems, f) && Inv(t, mems', f') && Harmless(f, f', t) && IsSlot(a') && |key| == f.keySize
    requires Filling(mems, f, mems', f', SegmentOf(a'), SlotOf(a'), Slot(key, value))
    requires ValueAt(f, a) == value
    ensures Inv(Remapped(t, key, a, a'), mems', f') && View(Remapped(t, key, a, a'), f') == View(t, f)
    ensures Inv(t[key := a'], mems', f') && Unused(t, a')
    ensures forall k :: k in t ==> t[k] != a'
    ensures View(t[key := a'], f') == View(t, f)[key := value]
  {
    hide IsSlot, Flag, SegmentOf, SlotOf, EncodeSlot, RecoveredTable, View, Filled, Appended, Inv, Live,
         Filling, Conserved, ConservedBut, ValueAt;
    InstallPhase(t, mems, f, mems', f', a', key, value);
    ViewParts(t, f, key);
    HarmlessView(f, f', t);
    if key in t && t[key] == a {
      assert View(t, f)[key := value] == View(t, f);
    }
  }

  lemma HarmlessView(f: Files, d: Files, t: Table)
    requires Harmless(f, d, t)
    ensures View(t, d) == View(t, f) && d.keySize == f.keySize && RecoveredTable(d) == RecoveredTable(f)
  {
  }

  lemma ViewParts(t: Table, f: Files, key: Key)
    ensures key in t ==> key in View(t, f) && View(t, f)[key] == ValueAt(f, t[key])
  {
  }

  lemma ValueOfSlot(f: Files, src: SegId, i: nat, a: U64)
    requires src in f.segs && i < |f.segs[src].slots| && SegmentOf(a) == src && SlotOf(a) == i
    ensures ValueAt(f, a) == f.segs[src].slots[i].value
  {
  }

  lemma RecoversSame(t: Table, mems: Mems, d: Files, v: map<Key, Value>)
    requires Inv(t, mems, d) && RecoveredTable(d) == t && View(t, d) == v
    ensures Recovers(d, v)
  {
    hide View, RecoveredTable, AllStored;
    InvParts(t, mems, d);
  }

  /**
   * Every file state seen recovers the map `v`, and what recovery rebuilds from the present
   * files fits the segments in memory.  The recovered table need not be the one in memory.
   */
  ghost predicate Sound(mems: Mems, f: Files, v: map<Key, Value>, seen: iset<Files>) {
    Inv(RecoveredTable(f), mems, f) && View(RecoveredTable(f), f) == v && AllRecover(seen, v)
  }

  ghost predicate SoundNow(ix: Index)
    reads ix, ix.mgr, ix.mgr.segments.Values, ix.disk
  {
    Sound(ix.mgr.MemsNow(), ix.disk.files, ix.ViewNow(), ix.disk.seen)
  }

  /** While a move of a referenced slot is logged, recovery finds the same map, whatever becomes of the log. */
  lemma MoveLogPhase(t: Table, key: Key, a': U64, mems: Mems, f: Files, v: map<Key, Value>, seen: iset<Files>,
                     f': Files, seen': iset<Files>)
    requires Inv(t, mems, f) && View(t, f) == v && key in t
    requires Inv(t[key := a'], mems, f) && View(t[key := a'], f) == v
    requires Sound(mems, f, v, seen)
    requires LoggingMix(f, f', RecoveredTable(f), RecoveredTable(f)[key := a'], t)
    requires forall d :: d in seen' && d !in seen ==>
               LoggingMix(f, d, RecoveredTable(f), RecoveredTable(f)[key := a'], t)
    ensures Sound(mems, f', v, seen')
  {
    hide Inv, View, RecoveredTable, Recovers;
    var r, t' := RecoveredTable(f), t[key := a'];
    var r' := r[key := a'];
    assert Mixes(r', r, t', t');
    MixKeeps(r', r, t', t', mems, f, v);
    forall d | LoggingMix(f, d, r, r', t)
      ensures Inv(RecoveredTable(d), mems, d) && View(RecoveredTable(d), d) == v && Recovers(d, v)
    {
      MixKeeps(RecoveredTable(d), r, r', t, mems, f, v);
      InvSameSegs(RecoveredTable(d), mems, f, d);
      RecoversSame(RecoveredTable(d), mems, d, v);
    }
  }

  /** An append that spares the recovered table. */
  lemma AppendPhase(mems: Mems, f: Files, v: map<Key, Value>, seen: iset<Files>, mems': Mems, f': Files,
                    seen': iset<Files>)
    requires Sound(mems, f, v, seen) && Inv(RecoveredTable(f), mems', f') && Harmless(f, f', RecoveredTable(f))
    requires forall d :: d in seen' ==> d in seen || Harmless(f, d, RecoveredTable(f))
    ensures Sound(mems', f', v, seen')
  {
    hide Inv, View, RecoveredTable, AllStored, Formatted;
  }

  // ---------------------------------------------------------------- the log

  /** Whether one more record takes a log of `written` bytes to the checkpoint threshold. */
  ghost predicate Due(ix: Index, written: nat, keySize: nat) {
    ix.checkpointBytes > 0 && written + RecordSize(keySize) >= ix.checkpointBytes && ix.hasSnapshotDir
  }

  /**
   * What one move does to the log.  Below the threshold the log stays open and grows by the
   * record, which is missing exactly if a log write failed.
   */
  ghost predicate LogStep(ix: Index, l: Log, keySize: nat, s: Status, fired: bool, kept: bool, l': Log) {
    (l.faulted ==> l'.faulted) && (l.missed ==> l'.missed) && (l'.isOpen ==> l.isOpen) &&
    (fired <==> s == Ok && l.isOpen && Due(ix, l.written, keySize)) &&
    (s != Ok ==> kept) && (s == Ok && !l.isOpen ==> !kept) &&
    (l.isOpen && !l'.faulted ==> l'.isOpen && (kept <==> !fired)) &&
    (l.isOpen && !fired ==>
       l'.isOpen && l'.written == l.written + (if s == Ok && kept then RecordSize(keySize) else 0) &&
       (!l.missed ==> (kept <==> !l'.missed)))
  }

  /** The slot-move callback: log first, whatever the index holds, then compare and set. */
  method OnSlotMoved(ix: Index, key: Key, a: U64, a': U64) returns (ghost logged: bool)
    requires ix.Valid() && |key| == ix.disk.files.keySize && ix.disk.files in ix.disk.seen
    requires Inv(ix.table[key := a'], ix.mgr.MemsNow(), ix.disk.files)
    requires Inv(Remapped(ix.table, key, a, a'), ix.mgr.MemsNow(), ix.disk.files)
    requires View(Remapped(ix.table, key, a, a'), ix.disk.files) == ix.ViewNow()
    requires forall k :: k in ix.table ==> ix.table[k] != a'
    modifies ix`table, ix.wal, ix.disk
    ensures ix.Valid() && ix.disk.files in ix.disk.seen
    ensures ix.table == Remapped(old(ix.table), key, a, a') && ix.ViewNow() == old(ix.ViewNow())
    ensures ix.disk.files.segs == old(ix.disk.files).segs && ix.disk.files.keySize == old(ix.disk.files).keySize
    ensures LogStep(ix, old(LogHere(ix)), old(ix.disk.files).keySize, Ok,
                    old(ix.wal.isOpen && Due(ix, ix.wal.written, ix.disk.files.keySize)), logged, LogHere(ix))
    // Restarting agrees with memory exactly when the log holds the move iff the entry moved,
    // and without failures it holds the move exactly below the checkpoint threshold.
    ensures old(ix.Synced()) && logged ==> RecoveredTable(ix.disk.files) == old(ix.table)[key := a']
    ensures old(ix.Synced()) ==>
              (ix.Synced() <==> (logged <==> key in old(ix.table) && old(ix.table)[key] == a))
    ensures old(ix.Synced()) && old(ix.wal.isOpen) && !ix.disk.faulted ==>
              (ix.Synced() <==>
               (key in old(ix.table) && old(ix.table)[key] == a <==>
                !old(Due(ix, ix.wal.written, ix.disk.files.keySize))))
    ensures old(ix.wal.isOpen) && !ix.disk.faulted ==>
              RecoveredTable(ix.disk.files) ==
              if old(Due(ix, ix.wal.written, ix.disk.files.keySize)) then old(ix.table)
              else RecoveredTable(old(ix.disk.files))[key := a']
    ensures old(ix.wal.isOpen) && !ix.disk.faulted && !old(Due(ix, ix.wal.written, ix.disk.files.keySize)) ==>
              Logged(old(ix.disk.files), ix.disk.files, Record(UPDATE, key, a', a))
    // Recovery finds the map in every state on the way, logged or not, since both copies are there.
    ensures old(SoundNow(ix)) && key in old(ix.table) && old(ix.table)[key] == a ==> SoundNow(ix)
  {
    hide Replayed, RecordSize, Inv, LogClean, View, RecoveredTable, Logging, LoggingMix, AllRecover, Sound,
         SegmentManager.Valid, SegmentManager.MemsNow;
    ghost var t, f, mems, seen := ix.table, ix.disk.files, ix.mgr.MemsNow(), ix.disk.seen;
    ghost var t' := Remapped(t, key, a, a');
    MoveKeepsRecoveryIff(t, key, a, a', true);
    MoveKeepsRecoveryIff(t, key, a, a', false);
    var ignored;
    ignored, logged := ix.AppendWal(UPDATE, key, a', a);
    ghost var g := ix.disk.files;
    InvSameSegs(t, mems, f, g);
    InvSameSegs(t', mems, f, g);
    if key in t && t[key] == a && Sound(mems, f, View(t, f), seen) {
      MoveLogPhase(t, key, a', mems, f, View(t, f), seen, g, ix.disk.seen);
    }
    if key in ix.table && ix.table[key] == a {
      ix.table := ix.table[key := a'];
    }
  }

  /** A complete move of an owned slot leaves ownership as it was, one slot further. */
  lemma MovedStep(p: Point, mems': Mems, f': Files, ids: set<SegId>, src: SegId, i: SlotId, a': U64, c: Slot)
    requires Inv(p.table, p.mems, p.files) && OwnedBut(p, ids, src, i) && IsSlot(a') && SegmentOf(a') != src
    requires src in ids && src in p.mems && i < p.mems[src].total && Bitmap.IsSet(p.mems[src].bitmap, i)
    requires src in p.files.segs && i < |p.files.segs[src].slots| && p.files.segs[src].slots[i] == c
    requires Filling(p.mems, p.files, mems', f', SegmentOf(a'), SlotOf(a'), c)
    ensures OwnedBut(Point(Remapped(p.table, c.key, EncodeSlot(src, i), a'), mems', f'), ids, src, i + 1)
  {
    hide Bitmap.IsSet, Flag, SegmentOf, SlotOf, EncodeSlot, Consistent, Inv, Filled, Appended, Store.Mounted, IsSlot;
    var t, mems, f := p.table, p.mems, p.files;
    var id, slot, a := SegmentOf(a'), SlotOf(a'), EncodeSlot(src, i);
    InvParts(t, mems, f);
    FillingParts(mems, f, mems', f', id, slot, c);
    assert Owned(t, f, src, i);
    var t' := Remapped(t, c.key, a, a');
    assert a' == EncodeSlot(id, slot) by { SlotIsItself(a'); }
    forall s: SegId, j: SlotId | s in ids && s in mems' && j < mems'[s].total && Bitmap.IsSet(mems'[s].bitmap, j)
      ensures (s == src && j < i + 1) || Owned(t', f', s, j)
    {
      if !(s == id && j == slot) && !(s == src && j < i + 1) {
        OwnedElsewhere(t, f, f', s, j, src, i, c.key, a');
      }
    }
  }

  lemma SlotIsItself(a: U64)
    requires IsSlot(a)
    ensures a == EncodeSlot(SegmentOf(a), SlotOf(a))
  {
  }

  /** What a complete append changes. */
  lemma FillingParts(mems: Mems, f: Files, mems': Mems, f': Files, id: SegId, slot: nat, c: Slot)
    requires Filling(mems, f, mems', f', id, slot, c) && Consistent(mems[id])
    ensures f'.segs.Keys == f.segs.Keys && mems'.Keys == mems.Keys
    ensures slot < |f'.segs[id].slots| && f'.segs[id].slots[slot] == c
    ensures forall s :: s in f.segs ==> |f'.segs[s].slots| == |f.segs[s].slots|
    ensures forall s, j :: s in f.segs && 0 <= j < |f.segs[s].slots| && !(s == id && j == slot) ==>
              f'.segs[s].slots[j] == f.segs[s].slots[j]
    ensures forall s :: s in mems ==> mems'[s].total == mems[s].total
    ensures forall s, j: nat :: s in mems && Bitmap.IsSet(mems'[s].bitmap, j) && !(s == id && j == slot) ==>
              Bitmap.IsSet(mems[s].bitmap, j)
  {
    hide Bitmap.IsSet, Bitmap.Set;
    AppendedIsConsistent(mems[id]);
  }

  lemma FillingFlushes(t: Table, t': Table, mems: Mems, f: Files, mems': Mems, f': Files, id: SegId, slot: nat, c: Slot)
    requires Filling(mems, f, mems', f', id, slot, c)
    ensures KeepsFlushed(Point(t, mems, f), Point(t', mems', f'))
  {
    hide Appended;
  }

  lemma OwnedElsewhere(t: Table, f: Files, f': Files, s: SegId, j: SlotId, src: SegId, i: SlotId, key: Key, a': U64)
    requires Owned(t, f, s, j) && Owned(t, f, src, i) && (s != src || j != i)
    requires f.segs[src].slots[i].key == key
    requires s in f'.segs && j < |f'.segs[s].slots| && f'.segs[s].slots[j] == f.segs[s].slots[j]
    ensures Owned(Remapped(t, key, EncodeSlot(src, i), a'), f', s, j)
  {
    SlotRoundTrip(s, j);
    SlotRoundTrip(src, i);
    hide EncodeSlot, SegmentOf, SlotOf;
  }

  /** Restarting would rebuild the table, and every file state seen so far recovers the present map. */
  ghost predicate Durable(ix: Index)
    reads ix, ix.disk
  {
    ix.Synced() && AllRecover(ix.disk.seen, ix.ViewNow())
  }

  lemma DurableIsSound(ix: Index)
    requires ix.Valid() && Durable(ix)
    ensures SoundNow(ix)
  {
    hide Inv, LogClean, View, RecoveredTable, AllRecover, SegmentManager.Valid, SegmentManager.MemsNow;
  }

  /**
   * The recovered table `r` looks for some key in a segment of `gone`, from where it has been
   * moved, and not to a segment of `left`.
   */
  ghost predicate StaleTables(t: Table, r: Table, gone: set<SegId>, left: set<SegId>) {
    exists k :: k in r && k in t && r[k] != t[k] && SegmentOf(r[k]) in gone && SegmentOf(t[k]) !in left
  }

  ghost predicate Stale(p: Point, gone: set<SegId>, left: set<SegId>) {
    StaleTables(p.table, RecoveredTable(p.files), gone, left)
  }

  /** Moves from `src` to `target` leave recovery stale if it was before, or if a checkpoint fired. */
  ghost predicate KeepsStale(p: Point, q: Point, src: SegId, target: SegId, fired: bool) {
    forall gone, left :: src in gone && src in left && target !in left && (fired || Stale(p, gone, left)) ==>
      Stale(q, gone, left)
  }

  lemma KeepsStaleBoth(p: Point, q: Point, r: Point, src: SegId, target: SegId, fired: bool, fires: bool)
    requires KeepsStale(p, q, src, target, fired) && KeepsStale(q, r, src, target, fires)
    ensures KeepsStale(p, r, src, target, fired || fires)
  {
    hide Stale;
  }

  lemma KeepsStaleSame(p: Point, q: Point, r: Point, src: SegId, target: SegId, fired: bool)
    requires KeepsStale(p, q, src, target, fired)
    requires r.table == q.table && RecoveredTable(r.files) == RecoveredTable(q.files)
    ensures KeepsStale(p, r, src, target, fired)
  {
    hide StaleTables, RecoveredTable;
    forall gone, left | src in gone && src in left && target !in left && (fired || Stale(p, gone, left))
      ensures Stale(r, gone, left)
    {
      assert Stale(q, gone, left);
    }
  }

  lemma KeepsStaleNothing(p: Point, src: SegId, target: SegId)
    ensures KeepsStale(p, p, src, target, false)
  {
    hide Stale;
  }

  /** What a slot of the files stores. */
  ghost function SlotAt(f: Files, src: SegId, i: nat): Slot {
    if src in f.segs && i < |f.segs[src].slots| then f.segs[src].slots[i] else Slot([], [])
  }

  /** Copies one occupied slot of `src` to `target`; the index does not know yet. */
  method CopySlot(ix: Index, src: SegId, i: SlotId, target: SegId) returns (s: Status, c: Slot, slot: nat)
    requires ix.Valid() && src in ix.mgr.segments && target in ix.mgr.segments && src != target
    requires i < ix.mgr.segments[src].cursor && Bitmap.IsSet(ix.mgr.segments[src].bitmap, i)
    requires ix.disk.files in ix.disk.seen
    modifies ix.mgr.segments[target], ix.disk
    ensures ix.Valid() && ix.disk.files in ix.disk.seen
    ensures s == Ok || s == Status.Full || Failure(s)
    ensures ix.disk.faulted == (old(ix.disk.faulted) || Failure(s))
    ensures ix.disk.logFaulted == old(ix.disk.logFaulted)
    ensures !ix.disk.faulted ==>
              (s == Status.Full <==> old(ix.mgr.MemsNow())[target].cursor == old(ix.mgr.MemsNow())[target].total)
    ensures s == Status.Full ==> ix.disk.files == old(ix.disk.files)
    ensures s != Ok ==> ix.mgr.MemsNow() == old(ix.mgr.MemsNow())
    ensures Harmless(old(ix.disk.files), ix.disk.files, ix.table)
    ensures s == Ok ==>
              src in old(ix.disk.files).segs && i < |old(ix.disk.files).segs[src].slots| && slot < SLOT_UNIT &&
              c == old(ix.disk.files).segs[src].slots[i] && |c.key| == old(ix.disk.files).keySize &&
              Filling(old(ix.mgr.MemsNow()), old(ix.disk.files), ix.mgr.MemsNow(), ix.disk.files, target, slot, c)
    ensures old(SoundNow(ix)) ==> SoundNow(ix)
  {
    hide Inv, LogClean, Harmless, Filling, View, RecoveredTable, AllRecover, Sound, SegmentManager.Valid,
         SegmentManager.MemsNow, Bitmap.IsSet, Store.Mounted, Consistent;
    ghost var t, f, mems, seen, v := ix.table, ix.disk.files, ix.mgr.MemsNow(), ix.disk.seen, ix.ViewNow();
    ghost var also := SoundTable(t, mems, f, v, seen);
    slot := 0;
    ix.MemsCover();
    SlotParts(t, mems, f, src, i);
    HarmlessNothing(t, mems, f);
    s, c := ix.disk.ReadSlot(src, i);
    if s != Ok {
      return;
    }
    s, slot := ix.InsertActive(target, c.key, c.value, also);
    HarmlessView(f, ix.disk.files, t);
    if Sound(mems, f, v, seen) {
      AppendPhase(mems, f, v, seen, ix.mgr.MemsNow(), ix.disk.files, ix.disk.seen);
    }
  }

  /**
   * Copies one occupied slot of `src` to `target` and tells the index.  `fired` says whether
   * the callback's log record took the log to the checkpoint threshold, `kept` that the record
   * of the move, if there was one, is in the log.
   */
  method MoveSlot(ix: Index, src: SegId, i: SlotId, target: SegId)
      returns (s: Status, ghost fired: bool, ghost kept: bool)
    requires ix.Valid() && src in ix.mgr.segments && target in ix.mgr.segments && src != target
    requires i < ix.mgr.segments[src].cursor && Bitmap.IsSet(ix.mgr.segments[src].bitmap, i)
    requires Cleared(ix.table, src, i) && ix.disk.files in ix.disk.seen
    modifies ix`table, ix.mgr.segments[target], ix.wal, ix.disk
    ensures ix.Valid() && ix.disk.files in ix.disk.seen
    ensures s == Ok || s == Status.Full || Failure(s)
    ensures Failure(s) ==> ix.disk.faulted
    ensures ix.ViewNow() == old(ix.ViewNow())
    ensures Cleared(ix.table, src, if s == Ok then i + 1 else i)
    ensures Appending1(old(ix.mgr.MemsNow()), ix.mgr.MemsNow(), target, s == Ok)
    ensures !ix.disk.faulted ==>
              (s == Status.Full <==> old(ix.mgr.MemsNow())[target].cursor == old(ix.mgr.MemsNow())[target].total)
    ensures s == Status.Full ==> ix.disk.files == old(ix.disk.files)
    ensures s != Ok ==> ix.table == old(ix.table) && ix.mgr.MemsNow() == old(ix.mgr.MemsNow())
    ensures s != Ok ==> RecoveredTable(ix.disk.files) == RecoveredTable(old(ix.disk.files))
    ensures ix.disk.files.keySize == old(ix.disk.files).keySize
    // Ownership of slots, whatever happens to the log.
    ensures s == Ok ==> Keeps(old(Here(ix)), Here(ix), src, i, i + 1)
    // The log.
    ensures LogStep(ix, old(LogHere(ix)), old(ix.disk.files).keySize, s, fired, kept, LogHere(ix))
    // Restarting agrees with memory exactly when the record is kept and an entry names the slot, or neither.
    ensures s != Ok && old(ix.Synced()) ==> ix.Synced()
    ensures old(ix.Synced()) && s == Ok ==>
              (ix.Synced() <==> (kept <==> Owned(old(ix.table), old(ix.disk.files), src, i)))
    // With the record, restarting gives the key of the slot the value that the slot has, whatever memory holds.
    ensures old(ix.wal.isOpen) && !ix.disk.faulted && s == Ok && !fired ==>
              RecoveredTable(ix.disk.files) ==
              RecoveredTable(old(ix.disk.files))[SlotAt(old(ix.disk.files), src, i).key :=
                                                 EncodeSlot(target, old(ix.mgr.MemsNow())[target].cursor)]
    ensures old(ix.Synced()) && s == Ok && kept ==>
              var c := SlotAt(old(ix.disk.files), src, i);
              Recovers(ix.disk.files, old(ix.ViewNow())[c.key := c.value])
    // Recovery finds the map in every state on the way, whatever fails, when an entry names the slot.
    ensures old(SoundNow(ix)) && (s == Ok ==> Owned(old(ix.table), old(ix.disk.files), src, i)) ==> SoundNow(ix)
    ensures old(ix.wal.isOpen) && !ix.disk.faulted && s == Ok && Owned(old(ix.table), old(ix.disk.files), src, i) ==>
              KeepsStale(old(Here(ix)), Here(ix), src, target, fired)
  {
    hide Inv, LogClean, Harmless, Filling, View, RecoveredTable, AllRecover, Sound, OwnedBut, Keeps, Cleared,
         Appending1, SegmentManager.Valid, SegmentManager.MemsNow, Bitmap.IsSet, IsSlot, SegmentOf, SlotOf,
         EncodeSlot, Store.Mounted, Consistent, Unused, ValueAt, RecordSize, KeepsStale, Logged, Recovers, LogStep,
         SlotAt, Owned, Due, Remapped;
    fired, kept := false, true;
    ghost var p, l := Here(ix), LogHere(ix);
    ix.MemsCover();
    SlotParts(p.table, p.mems, p.files, src, i);
    NoAppend(p.mems, target);
    var c, slot;
    s, c, slot := CopySlot(ix, src, i, target);
    HarmlessView(p.files, ix.disk.files, p.table);
    if s != Ok {
      NoLogStep(ix, l, LogHere(ix), p.files.keySize, s);
      return;
    }
    ghost var q := Here(ix);
    ghost var a' := EncodeSlot(target, slot);
    Copied(p, q.mems, q.files, src, i, target, slot, c);
    fired := ix.wal.isOpen && Due(ix, ix.wal.written, ix.disk.files.keySize);
    kept := OnSlotMoved(ix, c.key, EncodeSlot(src, i), EncodeSlot(target, slot));
    KeepsSameSegs(p, Point(ix.table, q.mems, q.files), ix.disk.files, src, i, i + 1);
    if l.isOpen && !ix.disk.faulted && Owned(p.table, p.files, src, i) {
      StaleStep(p, Here(ix), src, i, c.key, target, slot, fired);
    }
    if RecoveredTable(p.files) == p.table && kept {
      InvSameSegs(p.table[c.key := a'], q.mems, q.files, ix.disk.files);
      RecoversSame(p.table[c.key := a'], q.mems, ix.disk.files, View(p.table, p.files)[c.key := c.value]);
    }
  }

  lemma NoLogStep(ix: Index, l: Log, l': Log, keySize: nat, s: Status)
    requires s != Ok && l' == l.(faulted := l'.faulted) && (l.faulted ==> l'.faulted)
    ensures LogStep(ix, l, keySize, s, false, true, l')
  {
  }

  lemma StaleStep(p: Point, q: Point, src: SegId, i: SlotId, key: Key, target: SegId, slot: SlotId, fired: bool)
    requires key in p.table && p.table[key] == EncodeSlot(src, i) && src != target
    requires q.table == Remapped(p.table, key, EncodeSlot(src, i), EncodeSlot(target, slot))
    requires RecoveredTable(q.files) ==
             if fired then p.table else RecoveredTable(p.files)[key := EncodeSlot(target, slot)]
    ensures KeepsStale(p, q, src, target, fired)
  {
    SlotRoundTrip(src, i);
    SlotRoundTrip(target, slot);
    hide SegmentOf, EncodeSlot, RecoveredTable;
    var t, r, t', r' := p.table, RecoveredTable(p.files), q.table, RecoveredTable(q.files);
    forall gone, left | src in gone && src in left && target !in left && (fired || Stale(p, gone, left))
      ensures Stale(q, gone, left)
    {
      var k :| k in t && (if fired then k == key
                          else k in r && r[k] != t[k] && SegmentOf(r[k]) in gone && SegmentOf(t[k]) !in left);
      assert k in r' && k in t' && r'[k] != t'[k] && SegmentOf(r'[k]) in gone && SegmentOf(t'[k]) !in left;
    }
  }

  lemma SlotParts(t: Table, mems: Mems, f: Files, src: SegId, i: nat)
    requires Inv(t, mems, f) && src in mems && i < mems[src].cursor
    ensures src in f.segs && i < |f.segs[src].slots| && i < SLOT_UNIT && i < mems[src].total
    ensures |f.segs[src].slots[i].key| == f.keySize
  {
    InRange(mems[src]);
  }

  lemma NoAppend(mems: Mems, target: SegId)
    ensures Appending1(mems, mems, target, false)
  {
  }

  /** What recovery rebuilds, if that is sound. */
  ghost function SoundTable(t: Table, mems: Mems, f: Files, v: map<Key, Value>, seen: iset<Files>): (r: Table)
    requires Inv(t, mems, f)
    ensures Inv(r, mems, f) && (Sound(mems, f, v, seen) ==> r == RecoveredTable(f))
  {
    if Sound(mems, f, v, seen) then RecoveredTable(f) else t
  }

  lemma KeepsSameSegs(p: Point, q: Point, d: Files, src: SegId, i: nat, i': nat)
    requires Keeps(p, q, src, i, i') && d.segs == q.files.segs
    ensures Keeps(p, q.(files := d), src, i, i')
  {
    forall ids | src in ids && OwnedBut(p, ids, src, i)
      ensures OwnedBut(q.(files := d), ids, src, i')
    {
      OwnedSameSegs(q, d, ids, src, i');
    }
  }

  lemma OwnedSameSegs(p: Point, d: Files, ids: set<SegId>, src: SegId, i: nat)
    requires OwnedBut(p, ids, src, i) && d.segs == p.files.segs
    ensures OwnedBut(p.(files := d), ids, src, i)
  {
    hide Bitmap.IsSet, EncodeSlot;
    forall s: SegId, j: SlotId | s in ids && s in p.mems && j < p.mems[s].total && Bitmap.IsSet(p.mems[s].bitmap, j)
      ensures (s == src && j < i) || Owned(p.table, d, s, j)
    {
      assert (s == src && j < i) || Owned(p.table, p.files, s, j);
    }
  }

  /** Everything the callback may rely on once the copy is complete. */
  lemma Copied(p: Point, mems': Mems, f': Files, src: SegId, i: nat, target: SegId, slot: nat, c: Slot)
    requires Inv(p.table, p.mems, p.files) && Inv(p.table, mems', f') && Harmless(p.files, f', p.table)
    requires i < SLOT_UNIT && slot < SLOT_UNIT && src != target && src in p.mems && i < p.mems[src].total
    requires Bitmap.IsSet(p.mems[src].bitmap, i) && |c.key| == p.files.keySize
    requires src in p.files.segs && i < |p.files.segs[src].slots| && p.files.segs[src].slots[i] == c
    requires Filling(p.mems, p.files, mems', f', target, slot, c) && Cleared(p.table, src, i)
    ensures var a, a' := EncodeSlot(src, i), EncodeSlot(target, slot);
            var t' := Remapped(p.table, c.key, a, a');
            Inv(t', mems', f') && View(t', f') == View(p.table, p.files) && Cleared(t', src, i + 1) &&
            Inv(p.table[c.key := a'], mems', f') && (forall k :: k in p.table ==> p.table[k] != a') &&
            View(p.table[c.key := a'], f') == View(p.table, p.files)[c.key := c.value] &&
            Keeps(p, Point(t', mems', f'), src, i, i + 1)
    ensures Owned(p.table, p.files, src, i) <==> c.key in p.table && p.table[c.key] == EncodeSlot(src, i)
    ensures Appending1(p.mems, mems', target, true) && f'.keySize == p.files.keySize && SlotAt(p.files, src, i) == c
    ensures target in p.mems && slot == p.mems[target].cursor < p.mems[target].total
  {
    var t, mems, f := p.table, p.mems, p.files;
    var a, a' := EncodeSlot(src, i), EncodeSlot(target, slot);
    SlotRoundTrip(src, i);
    SlotRoundTrip(target, slot);
    hide Flag, SegmentOf, SlotOf, EncodeSlot, IsSlot, Bitmap.IsSet, Consistent, Store.Mounted, RecoveredTable, View,
         Filled, Appended, ValueAt, Inv, AllStored, Cleared, OwnedBut;
    ValueOfSlot(f, src, i, a);
    MovePhase(t, mems, f, mems', f', a, a', c.key, c.value);
    InvParts(t, mems, f);
    RemapClears(t, f, src, i, c.key, a, a');
    FillingFlushes(t, Remapped(t, c.key, a, a'), mems, f, mems', f', target, slot, c);
    forall ids | src in ids && OwnedBut(p, ids, src, i)
      ensures OwnedBut(Point(Remapped(t, c.key, a, a'), mems', f'), ids, src, i + 1)
    {
      MovedStep(p, mems', f', ids, src, i, a', c);
    }
  }

  /** One append to `target`, or nothing. */
  ghost predicate Appending1(mems: Mems, mems': Mems, target: SegId, moved: bool) {
    if !moved then mems' == mems
    else
      target in mems && mems[target].cursor < mems[target].total && mems[target].cursor / 8 < |mems[target].bitmap| &&
      mems' == mems[target := Appended(mems[target])]
  }
}
