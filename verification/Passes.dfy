/**
 * A compaction pass: the full segments worth it are compacted one after the other, each into
 * a segment that has room.
 */
module Passes {
  import opened Base
  import opened Offset
  import opened WalCodec
  import opened Files
  import opened Segment
  import opened Store
  import opened Wal
  import opened Manager
  import opened Allocation
  import opened Index
  import opened Conservation
  import opened Moves
  import opened Compaction
  import Bitmap

  predicate NeedsCompaction(m: SegMem, threshold: real) {
    m.state == SegState.Full && m.cursor > 0 && m.deleted as real / m.cursor as real >= threshold
  }

  /** Worth compacting: filled to the last slot, and at least this part of it deleted. */
  lemma NeedsCompactionIff(m: SegMem, threshold: real)
    requires Consistent(m)
    ensures NeedsCompaction(m, threshold) <==>
            0 < m.cursor == m.total && m.deleted as real >= threshold * m.total as real
  {
    hide Consistent;
    StateMeans(m);
    if 0 < m.cursor == m.total {
      RatioAtLeast(m.deleted as real, m.total as real, threshold);
    }
  }

  lemma RatioAtLeast(a: real, b: real, t: real)
    requires b > 0.0
    ensures a / b >= t <==> a >= t * b
  {
    assert a == a / b * b;
    if a / b >= t {
      assert a / b * b >= t * b;
    } else {
      assert a / b * b < t * b;
    }
  }

  /** The full segments worth compacting, hot ones excepted, in whatever order the set iterates. */
  method Candidates(mgr: SegmentManager, threshold: real) returns (ids: seq<SegId>)
    requires mgr.Valid()
    ensures NoDup(ids)
    ensures forall id :: id in ids <==>
              id in mgr.fullSet && id !in mgr.hotSegments && id in mgr.MemsNow() &&
              NeedsCompaction(mgr.MemsNow()[id], threshold)
  {
    hide Consistent, NoDup, NeedsCompaction;
    ids := [];
    NoDupEmpty(ids);
    var todo := mgr.fullSet;
    while todo != {}
      invariant todo <= mgr.fullSet && NoDup(ids)
      invariant forall id :: id in ids <==>
                  id in mgr.fullSet && id !in todo && id !in mgr.hotSegments && id in mgr.MemsNow() &&
                  NeedsCompaction(mgr.MemsNow()[id], threshold)
      decreases todo
    {
      var id :| id in todo;
      PartitionCovers(mgr.Classification(), mgr.segments.Keys, id);
      var seg := mgr.segments[id];
      if id !in mgr.hotSegments &&
         NeedsCompaction(SegMem(seg.total, seg.used, seg.deleted, seg.cursor, seg.bitmap, seg.state), threshold) {
        NoDupSnoc(ids, id);
        ids := ids + [id];
      }
      todo := todo - {id};
    }
  }

  /** A compacted segment becomes idle, and a target without room full. */
  function Retired(c: Classes, src: SegId, target: SegId, filled: bool): Classes {
    var d := c.(full := c.full - {src}, order := Without(c.order, src), idle := c.idle + {src});
    if filled then
      d.(appending := d.appending - {target}, full := d.full + {target}, order := d.order + [target])
    else d
  }

  lemma RetiredKeeps(c: Classes, ids: set<SegId>, src: SegId, target: SegId, filled: bool)
    requires Partition(c, ids) && src in c.full && target in c.appending
    ensures Partition(Retired(c, src, target, filled), ids)
    ensures NoDup(c.order) ==> NoDup(Retired(c, src, target, filled).order)
  {
    hide NoDup;
    if NoDup(c.order) {
      WithoutKeepsOnce(c.order, src);
      NoDupSnoc(Without(c.order, src), target);
    }
    assert Elems(Without(c.order, src)) == c.full - {src};
    assert Elems(Without(c.order, src) + [target]) == c.full - {src} + {target};
  }

  method Retire(mgr: SegmentManager, src: SegId, target: SegId)
    requires mgr.Valid() && src in mgr.fullSet && target in mgr.appendingSet && target in mgr.segments
    modifies mgr`idleSet, mgr`appendingSet, mgr`fullSet, mgr`fullOrder
    ensures mgr.Valid() && mgr.MemsNow() == old(mgr.MemsNow())
    ensures mgr.Classification() ==
              Retired(old(mgr.Classification()), src, target, mgr.MemsNow()[target].state == SegState.Full)
    ensures NoDup(old(mgr.fullOrder)) ==> NoDup(mgr.fullOrder)
  {
    hide Consistent, NoDup, Partition;
    RetiredKeeps(mgr.Classification(), mgr.segments.Keys, src, target, mgr.segments[target].state == SegState.Full);
    mgr.fullSet := mgr.fullSet - {src};
    mgr.fullOrder := Without(mgr.fullOrder, src);
    mgr.idleSet := mgr.idleSet + {src};
    if mgr.segments[target].state == SegState.Full {
      mgr.appendingSet := mgr.appendingSet - {target};
      mgr.fullSet := mgr.fullSet + {target};
      mgr.fullOrder := mgr.fullOrder + [target];
    }
  }

  lemma KeepsOwnedBoth(p: Point, q: Point, r: Point, must: set<SegId>, src: SegId)
    requires KeepsOwned(p, q, must) && KeepsOwned(q, r, {src}) && src in must
    ensures KeepsOwned(p, r, must)
  {
    hide AllOwned, Flushed;
    assert forall ids :: must <= ids ==> {src} <= ids;
  }

  /** The segments in `done` have no deleted slots left, and the others as many as before. */
  ghost predicate Reclaimed(mems: Mems, mems': Mems, done: set<SegId>) {
    mems'.Keys == mems.Keys &&
    forall id :: id in mems ==> mems'[id].deleted == if id in done then 0 else mems[id].deleted
  }

  lemma ReclaimedMore(mems: Mems, mems': Mems, mems'': Mems, done: set<SegId>, more: set<SegId>)
    requires Reclaimed(mems, mems', done) && Reclaimed(mems', mems'', more)
    ensures Reclaimed(mems, mems'', done + more)
  {
  }

  /**
   * `moved` slots were copied, and the segments in `emptied` have lost the slots they had: the
   * used counters of all segments tell how many slots were moved.
   */
  ghost predicate Moved(mems: Mems, mems': Mems, moved: nat, emptied: set<SegId>) {
    mems'.Keys == mems.Keys && emptied <= mems.Keys &&
    TotalUsed(mems', mems.Keys) + TotalUsed(mems, emptied) == TotalUsed(mems, mems.Keys) + moved
  }

  lemma NoneMoved(mems: Mems)
    ensures Moved(mems, mems, 0, {})
  {
  }

  lemma MovedMore(mems: Mems, mems': Mems, mems'': Mems, moved: nat, emptied: set<SegId>, src: SegId, more: nat,
                  gone: bool)
    requires Moved(mems, mems', moved, emptied) && Moved(mems', mems'', more, if gone then {src} else {})
    requires src in mems && src in mems' && mems'[src].used == mems[src].used && src !in emptied
    ensures Moved(mems, mems'', moved + more, emptied + if gone then {src} else {})
  {
    if gone {
      TotalUsedAdd(mems, emptied, src);
      TotalUsedAdd(mems', {}, src);
      assert {} + {src} == {src};
    } else {
      assert emptied + {} == emptied;
    }
  }

  /** One compaction, by the counters. */
  lemma CompactMoves(mems: Mems, mems': Mems, src: SegId, target: SegId, moved: nat, emptied: bool)
    requires Compacted(mems, mems', src, target, moved, emptied) && src != target
    ensures Moved(mems, mems', moved, if emptied then {src} else {})
  {
    hide Bitmap.Empty;
    var rest := mems.Keys - {src} - {target};
    assert rest + {target} + {src} == mems.Keys && {} + {src} == {src};
    TotalUsedSame(mems, mems', rest);
    TotalUsedAdd(mems, rest, target);
    TotalUsedAdd(mems', rest, target);
    TotalUsedAdd(mems, rest + {target}, src);
    TotalUsedAdd(mems', rest + {target}, src);
    TotalUsedAdd(mems, {}, src);
  }

  // ---------------------------------------------------------------- room

  /** How the classes change in one round. */
  ghost predicate Settled(c: Classes, mems: Mems, s: Status, src: SegId, target: SegId, c': Classes, mems': Mems) {
    if s == NoSpace then Picked(c, c', mems, None)
    else
      exists c1 :: Picked(c, c1, mems, Some(target)) && c' == ClassesAfter(c1, s, src, target, mems')
  }

  ghost function ClassesAfter(c: Classes, s: Status, src: SegId, target: SegId, mems: Mems): Classes {
    if s == Ok then Retired(c, src, target, target in mems && mems[target].state == SegState.Full) else c
  }

  /** Filled to the last slot. */
  ghost predicate FilledUp(mems: Mems, id: SegId) {
    id in mems && 0 < mems[id].cursor == mems[id].total
  }

  ghost predicate RoomFor(m: SegMem, n: nat) {
    n <= m.total - m.cursor
  }

  /** Whatever segment is picked next, `n` slots fit into it, one after the other. */
  ghost predicate Roomy(c: Classes, mems: Mems, n: nat) {
    (forall x :: Offered(c, mems, x) ==> RoomFor(mems[x], n)) &&
    ((forall x :: !Offered(c, mems, x)) ==>
       c.idle != {} && (n > 0 ==> forall x :: x in c.idle && x in mems ==> RoomFor(mems[x], n)))
  }

  lemma RoomyFits(c: Classes, mems: Mems, n: nat, c1: Classes, found: Option<SegId>, src: SegId)
    requires Roomy(c, mems, n) && Picked(c, c1, mems, found) && src in mems && mems[src].used <= n
    requires forall id :: id in mems ==> mems[id].cursor <= mems[id].total
    ensures found.Some? && FitsBehind(mems, src, found.value)
  {
  }

  /** A round that finds room leaves enough for the slots that remain. */
  lemma RoomyNext(c: Classes, mems: Mems, n: nat, c1: Classes, src: SegId, target: SegId, mems': Mems)
    requires Roomy(c, mems, n) && Picked(c, c1, mems, Some(target)) && src in mems && mems[src].used <= n
    requires Partition(c, mems.Keys) && Partition(c1, mems.Keys) && src in c.full && src != target
    requires Compacted(mems, mems', src, target, mems[src].used, true)
    requires forall id :: id in mems' ==> Consistent(mems'[id])
    ensures Roomy(ClassesAfter(c1, Ok, src, target, mems'), mems', n - mems[src].used)
  {
    hide Bitmap.Empty, Without, Elems, Consistent;
    var left, c' := n - mems[src].used, ClassesAfter(c1, Ok, src, target, mems');
    StateMeans(mems'[target]);
    forall x | Offered(c', mems', x)
      ensures RoomFor(mems'[x], left)
    {
      InRange(mems'[x]);
      if x != target {
        assert Offered(c, mems, x);
      }
    }
    if left > 0 {
      assert Offered(c', mems', target);
    } else {
      assert src in c'.idle;
    }
  }

  /** One round by the room there was: with enough of it the round finishes and uses up its share. */
  ghost predicate KeepsRoom(c: Classes, mems: Mems, used: nat, s: Status, c': Classes, mems': Mems) {
    forall n: nat :: Roomy(c, mems, n) && used <= n ==> s == Ok && Roomy(c', mems', n - used)
  }

  // ---------------------------------------------------------------- one round

  /** An active segment to compact `src` into. */
  method PickTarget(ix: Index, src: SegId) returns (found: Option<SegId>)
    requires ix.Valid() && src in ix.mgr.fullSet && src in ix.mgr.segments
    modifies ix.mgr
    ensures ix.Valid() && ix.mgr.segments == old(ix.mgr.segments) && Here(ix) == old(Here(ix))
    ensures ix.ViewNow() == old(ix.ViewNow()) && Durable(ix) == old(Durable(ix))
    ensures NoDup(old(ix.mgr.fullOrder)) ==> NoDup(ix.mgr.fullOrder)
    ensures old(ix.mgr.fullSet) <= ix.mgr.fullSet && Partition(ix.mgr.Classification(), ix.mgr.MemsNow().Keys)
    ensures found.Some? ==>
              found.value != src && found.value in ix.mgr.segments && found.value in ix.mgr.appendingSet &&
              found.value !in old(ix.mgr.fullSet)
    ensures Picked(old(ix.mgr.Classification()), ix.mgr.Classification(), ix.mgr.MemsNow(), found)
    ensures found.None? <==> old(NoneFound(ix.mgr.Classification(), ix.mgr.MemsNow()))
    ensures found.None? ==> ix.mgr.idleSet == {} && ix.mgr.appendingSet == {}
    ensures old(OneAppending(ix.mgr.Classification(), ix.mgr.MemsNow())) ==>
              OneAppending(ix.mgr.Classification(), ix.mgr.MemsNow())
    ensures old(Blocked(ix.mgr.Classification(), ix.mgr.MemsNow())) ==>
              found.Some? && (ix.mgr.segments[src].used > 0 ==> !FitsBehind(ix.mgr.MemsNow(), src, found.value))
  {
    hide Inv, LogClean, View, RecoveredTable, AllRecover, FitsBehind, OneAppending, Picked, Partition, NoDup,
         SegmentManager.Valid, SegmentManager.MemsNow, Consistent, Blocked, Elems, NoneFound;
    ghost var c, mems := ix.mgr.Classification(), ix.mgr.MemsNow();
    PartitionNow(ix);
    ix.MemsCover();
    var active := ix.mgr.GetActiveSegment();
    found := if active == null then None else Some(active.id);
    PartitionNow(ix);
    BlockedPick(c, ix.mgr.Classification(), mems, found, src);
    PickedFull(c, ix.mgr.Classification(), mems, found);
    FoundIfOffered(c, ix.mgr.Classification(), mems, found);
    if found.Some? {
      PickedParts(c, ix.mgr.Classification(), mems, src, found.value);
    }
    if OneAppending(c, mems) {
      PickKeepsOne(ix.table, c, ix.mgr.Classification(), mems, ix.disk.files, found);
    }
  }

  lemma PickedFull(c: Classes, c': Classes, mems: Mems, found: Option<SegId>)
    requires Partition(c, mems.Keys) && Partition(c', mems.Keys) && Picked(c, c', mems, found)
    ensures c.full <= c'.full
  {
  }

  /** Reclassifies the source and, if it is filled now, the target. */
  method Settle(ix: Index, src: SegId, target: SegId)
    requires ix.Valid() && src in ix.mgr.fullSet && target in ix.mgr.appendingSet && target in ix.mgr.segments
    modifies ix.mgr`idleSet, ix.mgr`appendingSet, ix.mgr`fullSet, ix.mgr`fullOrder
    ensures ix.Valid() && Here(ix) == old(Here(ix))
    ensures ix.ViewNow() == old(ix.ViewNow()) && Durable(ix) == old(Durable(ix))
    ensures ix.mgr.Classification() ==
              ClassesAfter(old(ix.mgr.Classification()), Ok, src, target, ix.mgr.MemsNow())
    ensures NoDup(old(ix.mgr.fullOrder)) ==> NoDup(ix.mgr.fullOrder)
  {
    hide Inv, LogClean, View, RecoveredTable, AllRecover, NoDup, SegmentManager.Valid, SegmentManager.MemsNow,
         Consistent, Retired, Partition, Elems;
    PartitionNow(ix);
    ix.MemsCover();
    Retire(ix.mgr, src, target);
  }

  /** Compacts `src` into an appending segment and reclassifies both. */
  method CompactInto(ix: Index, src: SegId, target: SegId)
      returns (s: Status, ghost fired: bool, ghost kept: bool, ghost moved: nat, ghost emptied: bool)
    requires ix.Valid() && ix.disk.files in ix.disk.seen && src != target
    requires src in ix.mgr.fullSet && src in ix.mgr.segments && target in ix.mgr.appendingSet &&
             target in ix.mgr.segments
    modifies ix`table, ix.mgr`idleSet, ix.mgr`appendingSet, ix.mgr`fullSet, ix.mgr`fullOrder, ix.mgr.segments[src],
             ix.mgr.segments[target], ix.wal, ix.disk
    ensures ix.disk.files.keySize == old(ix.disk.files).keySize
    ensures ix.Valid() && ix.disk.files in ix.disk.seen
    ensures s == Ok || s == Status.Full || Failure(s)
    ensures Failure(s) ==> ix.disk.faulted
    ensures ix.ViewNow() == old(ix.ViewNow())
    ensures old(ix.mgr.fullSet) - {src} <= ix.mgr.fullSet && (s == Ok ==> src in ix.mgr.idleSet)
    ensures NoDup(old(ix.mgr.fullOrder)) ==> NoDup(ix.mgr.fullOrder)
    ensures (s == Ok ==> emptied) && (s == Status.Full ==> !emptied)
    ensures Compacted(old(ix.mgr.MemsNow()), ix.mgr.MemsNow(), src, target, moved, emptied)
    ensures !ix.disk.faulted ==> (s == Ok <==> FitsBehind(old(ix.mgr.MemsNow()), src, target))
    ensures !ix.disk.faulted && s == Status.Full ==>
              target in ix.mgr.appendingSet && AtEnd(ix.mgr.MemsNow(), target)
    ensures ix.mgr.Classification() == ClassesAfter(old(ix.mgr.Classification()), s, src, target, ix.mgr.MemsNow())
    ensures s == Ok ==>
              if FilledUp(ix.mgr.MemsNow(), target) then target in ix.mgr.fullSet && target in ix.mgr.fullOrder
              else target in ix.mgr.appendingSet
    ensures old(OneAppending(ix.mgr.Classification(), ix.mgr.MemsNow())) ==>
              OneAppending(ix.mgr.Classification(), ix.mgr.MemsNow())
    ensures s == Ok ==> KeepsOwned(old(Here(ix)), Here(ix), {src}) && Flushed(Here(ix), src)
    ensures Growth(ix, old(LogHere(ix)), moved, old(ix.disk.files).keySize, fired, kept, LogHere(ix))
    ensures moved <= old(ix.mgr.segments[src].used) && (emptied ==> moved == old(ix.mgr.segments[src].used))
    ensures old(Durable(ix)) && AllOwned(old(Here(ix)), {src}) ==>
              (kept || !emptied ==> AllRecover(ix.disk.seen, ix.ViewNow())) && (kept ==> Durable(ix))
    ensures old(ix.wal.isOpen) && !ix.disk.faulted && s == Ok && AllOwned(old(Here(ix)), {src}) ==>
              KeepsStale(old(Here(ix)), Here(ix), src, target, fired)
  {
    hide Index.Valid, Index.ViewNow, RecoveredTable, AllRecover, Compacted, FitsBehind, OneAppending, Partition, NoDup,
         AllOwned, Keeps, SegmentManager.MemsNow, Retired, SegmentOf, Elems, Growth, Recoverable, KeepsStale,
         Flushed, KeepsOwned, Durable, AtEnd, FilledUp;
    ghost var c, p := ix.mgr.Classification(), Here(ix);
    PartitionNow(ix);
    s, fired, kept, moved, emptied := Compact(ix, src, target);
    CompactKeepsOne(c, p.mems, ix.mgr.MemsNow(), src, target, moved, emptied);
    if s != Ok {
      return;
    }
    KeepsIsOwned(p, Here(ix), src);
    Settle(ix, src, target);
    PartitionNow(ix);
    ConsistentNow(ix);
    FilledIsRetired(c, s, src, target, ix.mgr.Classification(), ix.mgr.MemsNow(), moved, emptied, p.mems);
  }

  /** One round: pick a target, compact, reclassify. */
  method CompactOne(ix: Index, src: SegId)
      returns (s: Status, ghost fired: bool, ghost kept: bool, ghost moved: nat, ghost emptied: bool,
               ghost target: SegId)
    requires ix.Valid() && src in ix.mgr.fullSet && src in ix.mgr.segments && ix.disk.files in ix.disk.seen
    modifies ix`table, ix.mgr, ix.mgr.segments.Values, ix.wal, ix.disk
    ensures ix.disk.files.keySize == old(ix.disk.files).keySize
    ensures ix.Valid() && ix.mgr.segments == old(ix.mgr.segments) && ix.disk.files in ix.disk.seen
    ensures s == Ok || s == NoSpace || s == Status.Full || Failure(s)
    ensures Failure(s) ==> ix.disk.faulted
    ensures ix.ViewNow() == old(ix.ViewNow())
    ensures old(ix.mgr.fullSet) - {src} <= ix.mgr.fullSet
    ensures NoDup(old(ix.mgr.fullOrder)) ==> NoDup(ix.mgr.fullOrder)
    ensures s == Ok ==> src in ix.mgr.idleSet && ix.mgr.MemsNow()[src].cursor == 0
    ensures s == Ok ==>
              if FilledUp(ix.mgr.MemsNow(), target) then target in ix.mgr.fullSet && target in ix.mgr.fullOrder
              else target in ix.mgr.appendingSet
    ensures (s == Ok ==> emptied) && (s == NoSpace || s == Status.Full ==> !emptied)
    ensures Reclaimed(old(ix.mgr.MemsNow()), ix.mgr.MemsNow(), if emptied then {src} else {})
    ensures Moved(old(ix.mgr.MemsNow()), ix.mgr.MemsNow(), moved, if emptied then {src} else {})
    ensures SameExcept(old(ix.mgr.MemsNow()), ix.mgr.MemsNow(), old(ix.mgr.fullSet), src)
    ensures s == NoSpace ==> Here(ix) == old(Here(ix))
    // A round is refused exactly when no segment is on offer, and otherwise finishes exactly if the slots fit.
    ensures Settled(old(ix.mgr.Classification()), old(ix.mgr.MemsNow()), s, src, target, ix.mgr.Classification(),
                    ix.mgr.MemsNow())
    ensures s == NoSpace <==> old(NoneFound(ix.mgr.Classification(), ix.mgr.MemsNow()))
    ensures s == NoSpace ==> ix.mgr.idleSet == {} && ix.mgr.appendingSet == {}
    ensures s != NoSpace && !ix.disk.faulted ==> (s == Ok <==> FitsBehind(old(ix.mgr.MemsNow()), src, target))
    ensures s == Status.Full && !ix.disk.faulted ==>
              target in ix.mgr.appendingSet && AtEnd(ix.mgr.MemsNow(), target)
    ensures !ix.disk.faulted ==>
              KeepsRoom(old(ix.mgr.Classification()), old(ix.mgr.MemsNow()), old(ix.mgr.segments[src].used), s,
                        ix.mgr.Classification(), ix.mgr.MemsNow())
    ensures !ix.disk.faulted && old(ix.mgr.segments[src].used) > 0 &&
            old(Blocked(ix.mgr.Classification(), ix.mgr.MemsNow())) ==>
              s == Status.Full
    ensures old(OneAppending(ix.mgr.Classification(), ix.mgr.MemsNow())) ==>
              OneAppending(ix.mgr.Classification(), ix.mgr.MemsNow())
    ensures s == Ok ==> KeepsOwned(old(Here(ix)), Here(ix), {src})
    ensures Growth(ix, old(LogHere(ix)), moved, old(ix.disk.files).keySize, fired, kept, LogHere(ix))
    ensures moved <= old(ix.mgr.segments[src].used) && (emptied ==> moved == old(ix.mgr.segments[src].used))
    ensures old(Durable(ix)) && AllOwned(old(Here(ix)), {src}) ==>
              (kept || !emptied ==> AllRecover(ix.disk.seen, ix.ViewNow())) && (kept ==> Durable(ix))
    ensures s == Ok ==> Flushed(Here(ix), src) && target !in old(ix.mgr.fullSet)
    ensures old(ix.wal.isOpen) && !ix.disk.faulted && s == Ok && AllOwned(old(Here(ix)), {src}) ==>
              KeepsStale(old(Here(ix)), Here(ix), src, target, fired)
  {
    hide Index.Valid, Index.ViewNow, RecoveredTable, AllRecover, Compacted, FitsBehind, OneAppending, Partition,
         NoDup, AllOwned, Keeps, SegmentManager.MemsNow, Retired, SegmentOf, Elems, Reclaimed, SameExcept, Growth,
         Moved, Blocked, Recoverable, KeepsStale, Flushed, KeepsOwned, Picked, NoneFound, Settled, ClassesAfter,
         KeepsRoom, AtEnd, SegmentManager.Valid, FilledUp;
    fired, kept, moved, emptied, target := false, true, 0, false, src;
    ghost var full, c, p, l := ix.mgr.fullSet, ix.mgr.Classification(), Here(ix), LogHere(ix);
    PartitionNow(ix);
    NothingMoved(ix, p.mems, full, src, l, p.files.keySize);
    ix.MemsCover();
    var found := PickTarget(ix, src);
    ghost var c1 := ix.mgr.Classification();
    if found.None? {
      s := NoSpace;
      NoRoomToKeep(c, c1, p.mems, p.mems[src].used, src);
      return;
    }
    target := found.value;
    InRangeNow(ix);
    s, fired, kept, moved, emptied := CompactInto(ix, src, found.value);
    CompactReclaims(p.mems, ix.mgr.MemsNow(), full, src, target, moved, emptied);
    ConsistentNow(ix);
    RoundSettles(c, c1, p.mems, s, src, target, ix.mgr.Classification(), ix.mgr.MemsNow());
    if !ix.disk.faulted {
      RoundKeepsRoom(c, c1, p.mems, s, src, target, ix.mgr.Classification(), ix.mgr.MemsNow(), moved, emptied);
    }
  }

  /** With nothing on offer there is no room to keep. */
  lemma NoRoomToKeep(c: Classes, c': Classes, mems: Mems, used: nat, src: SegId)
    requires Picked(c, c', mems, None)
    ensures KeepsRoom(c, mems, used, NoSpace, c', mems) && Settled(c, mems, NoSpace, src, src, c', mems)
  {
  }

  lemma RoundSettles(c: Classes, c1: Classes, mems: Mems, s: Status, src: SegId, target: SegId, c': Classes,
                     mems': Mems)
    requires Picked(c, c1, mems, Some(target)) && s != NoSpace && c' == ClassesAfter(c1, s, src, target, mems')
    ensures Settled(c, mems, s, src, target, c', mems')
  {
    hide Picked, ClassesAfter;
  }

  /** A finished round moves a target that it has filled to the full segments. */
  lemma FilledIsRetired(c: Classes, s: Status, src: SegId, target: SegId, c': Classes, mems': Mems, moved: nat,
                        emptied: bool, mems: Mems)
    requires Compacted(mems, mems', src, target, moved, emptied) && target in c.appending && src != target
    requires c' == ClassesAfter(c, s, src, target, mems') && Partition(c', mems'.Keys)
    requires forall id :: id in mems' ==> Consistent(mems'[id])
    ensures s == Ok ==>
              if FilledUp(mems', target) then target in c'.full && target in c'.order else target in c'.appending
  {
    hide Bitmap.Empty, Without, Consistent;
    StateMeans(mems'[target]);
    assert target in Elems(c'.order) <==> target in c'.order;
  }

  lemma RoundKeepsRoom(c: Classes, c1: Classes, mems: Mems, s: Status, src: SegId, target: SegId, c': Classes,
                       mems': Mems, moved: nat, emptied: bool)
    requires Partition(c, mems.Keys) && Partition(c1, mems.Keys) && src in c.full && src in mems && src != target
    requires Picked(c, c1, mems, Some(target)) && Compacted(mems, mems', src, target, moved, emptied)
    requires s == Ok <==> FitsBehind(mems, src, target)
    requires (s == Ok ==> emptied) && (emptied ==> moved == mems[src].used)
    requires c' == ClassesAfter(c1, s, src, target, mems')
    requires forall id :: id in mems ==> mems[id].cursor <= mems[id].total
    requires forall id :: id in mems' ==> Consistent(mems'[id])
    ensures KeepsRoom(c, mems, mems[src].used, s, c', mems')
  {
    hide Picked, Partition, Compacted, FitsBehind, Roomy, ClassesAfter, Consistent;
    forall n: nat | Roomy(c, mems, n) && mems[src].used <= n
      ensures s == Ok && Roomy(c', mems', n - mems[src].used)
    {
      RoomyFits(c, mems, n, c1, Some(target), src);
      RoomyNext(c, mems, n, c1, src, target, mems');
    }
  }

  lemma ConsistentNow(ix: Index)
    requires ix.Valid()
    ensures forall id :: id in ix.mgr.MemsNow() ==> Consistent(ix.mgr.MemsNow()[id])
  {
    hide Inv, LogClean, Consistent, Partition;
    ix.MemsCover();
  }

  lemma InRangeNow(ix: Index)
    requires ix.Valid()
    ensures forall id :: id in ix.mgr.MemsNow() ==> ix.mgr.MemsNow()[id].cursor <= ix.mgr.MemsNow()[id].total
  {
    hide Inv, LogClean, Consistent, Partition, SegmentManager.MemsNow;
    ConsistentNow(ix);
    forall id | id in ix.mgr.MemsNow()
      ensures ix.mgr.MemsNow()[id].cursor <= ix.mgr.MemsNow()[id].total
    {
      InRange(ix.mgr.MemsNow()[id]);
    }
  }

  lemma NothingMoved(ix: Index, mems: Mems, full: set<SegId>, src: SegId, l: Log, keySize: nat)
    ensures Reclaimed(mems, mems, {}) && SameExcept(mems, mems, full, src) && Moved(mems, mems, 0, {})
    ensures Growth(ix, l, 0, keySize, false, true, l)
  {
    hide Growth, Moved;
    NoneMoved(mems);
    NothingLogged(ix, l, keySize);
  }

  /** The segments `ids` other than `src` are as they were. */
  ghost predicate SameExcept(mems: Mems, mems': Mems, ids: set<SegId>, src: SegId) {
    forall x :: x in ids && x in mems && x != src ==> x in mems' && mems'[x] == mems[x]
  }

  lemma CompactReclaims(mems: Mems, mems': Mems, full: set<SegId>, src: SegId, target: SegId, moved: nat, emptied: bool)
    requires Compacted(mems, mems', src, target, moved, emptied) && target !in full && src != target
    ensures SameExcept(mems, mems', full, src)
    ensures Reclaimed(mems, mems', if emptied then {src} else {}) && (emptied ==> mems'[src].cursor == 0)
    ensures Moved(mems, mems', moved, if emptied then {src} else {})
  {
    hide Bitmap.Empty, Moved;
    CompactMoves(mems, mems', src, target, moved, emptied);
  }

  /** When only stuck segments are on offer, none of them has room for a live slot. */
  lemma BlockedPick(c: Classes, c': Classes, mems: Mems, found: Option<SegId>, src: SegId)
    requires Picked(c, c', mems, found) && src in mems && (found.Some? ==> found.value in mems)
    ensures Blocked(c, mems) ==> found.Some?
    ensures Blocked(c, mems) && mems[src].used > 0 ==> !FitsBehind(mems, src, found.value)
  {
  }

  lemma PartitionNow(ix: Index)
    requires ix.Valid()
    ensures Partition(ix.mgr.Classification(), ix.mgr.MemsNow().Keys) && ix.mgr.MemsNow().Keys == ix.mgr.segments.Keys
    ensures ix.mgr.Valid()
  {
    hide Inv, LogClean, Consistent, Partition;
    ix.MemsCover();
  }

  lemma PickKeepsOne(t: Table, c: Classes, c': Classes, mems: Mems, f: Files, found: Option<SegId>)
    requires Inv(t, mems, f) && Partition(c, mems.Keys) && Picked(c, c', mems, found) && OneAppending(c, mems)
    ensures OneAppending(c', mems)
  {
    hide Consistent, AllStored, Partition, Picked, OneAppending, Live;
    PickFindsRoom(c, c', mems, found);
  }

  lemma PickedParts(c: Classes, c': Classes, mems: Mems, src: SegId, target: SegId)
    requires Partition(c, mems.Keys) && Partition(c', mems.Keys) && Picked(c, c', mems, Some(target)) && src in c.full
    ensures src in c'.full && target in c'.appending && src != target && src in mems && target in mems
    ensures c.full <= c'.full && target !in c.full
  {
  }

  lemma CompactKeepsOne(c: Classes, mems: Mems, mems': Mems, src: SegId, target: SegId, moved: nat, emptied: bool)
    requires Compacted(mems, mems', src, target, moved, emptied) && Partition(c, mems.Keys)
    requires src in c.full && target in c.appending
    ensures OneAppending(c, mems) ==> OneAppending(c, mems')
    ensures forall filled :: OneAppending(c, mems) && emptied ==> OneAppending(Retired(c, src, target, filled), mems')
    ensures forall filled ::
              src in Retired(c, src, target, filled).idle && c.full - {src} <= Retired(c, src, target, filled).full
  {
    hide Bitmap.Empty, Without, Elems;
  }

  /** A run begins with the files as they are. */
  ghost method BeginRun(ix: Index)
    requires ix.Valid()
    modifies ix.disk`seen
    ensures ix.Valid() && ix.mgr.Valid() && ix.disk.files in ix.disk.seen
    ensures ix.ViewNow() == old(ix.ViewNow())
    ensures old(ix.Synced()) ==> Durable(ix)
  {
    hide Inv, LogClean, View, RecoveredTable, Recovers, SegmentManager.Valid, SegmentManager.MemsNow;
    ix.disk.Begin();
    if RecoveredTable(ix.disk.files) == ix.table {
      RecoversSame(ix.table, ix.mgr.MemsNow(), ix.disk.files, ix.ViewNow());
    }
  }

  /** The segments a pass over `mems` compacts. */
  ghost function Chosen(ids: set<SegId>, mems: Mems, threshold: real): (r: set<SegId>)
    ensures r <= mems.Keys
  {
    set id | id in ids && id in mems && NeedsCompaction(mems[id], threshold)
  }

  /** The segments a pass starting now would compact. */
  ghost function ChosenNow(ix: Index, threshold: real): set<SegId>
    reads ix, ix.mgr, ix.mgr.segments.Values
  {
    Chosen(ix.mgr.fullSet - ix.mgr.hotSegments, ix.mgr.MemsNow(), threshold)
  }

  /** How many live slots a pass starting now would move. */
  ghost function LiveSlots(ix: Index, threshold: real): nat
    reads ix, ix.mgr, ix.mgr.segments.Values
  {
    TotalUsed(ix.mgr.MemsNow(), ChosenNow(ix, threshold))
  }

  lemma Later(ids: seq<SegId>, i: nat)
    requires NoDup(ids) && i < |ids|
    ensures forall j :: i < j < |ids| ==> ids[j] != ids[i]
  {
  }

  /** How many live slots the first `i` of the segments `ids` have. */
  ghost function UsedOf(mems: Mems, ids: seq<SegId>, i: nat): nat {
    if i <= |ids| && Elems(ids[..i]) <= mems.Keys then TotalUsed(mems, Elems(ids[..i])) else 0
  }

  // ---------------------------------------------------------------- all rounds

  /** What the first `i` rounds of a pass over `ids` have done since the store was at `p`. */
  ghost predicate Pass(p: Point, q: Point, ids: seq<SegId>, i: nat, chosen: set<SegId>) {
    i <= |ids| && NoDup(ids) && Elems(ids) == chosen && chosen <= p.mems.Keys && (i == 0 ==> q.mems == p.mems) &&
    KeepsOwned(p, q, chosen) && Reclaimed(p.mems, q.mems, Elems(ids[..i])) &&
    (forall j :: 0 <= j < i ==> Flushed(q, ids[j])) &&
    (forall j :: i <= j < |ids| ==> ids[j] in q.mems && ids[j] in p.mems && q.mems[ids[j]] == p.mems[ids[j]])
  }

  lemma PassStarts(p: Point, ids: seq<SegId>, chosen: set<SegId>)
    requires NoDup(ids) && Elems(ids) == chosen && chosen <= p.mems.Keys
    ensures Pass(p, p, ids, 0, chosen) && UsedOf(p.mems, ids, 0) == 0
  {
    hide AllOwned, NoDup;
    assert ids[..0] == [];
  }

  /** The next segment is as it was, and owned if all chosen ones were. */
  lemma PassNext(p: Point, q: Point, ids: seq<SegId>, i: nat, chosen: set<SegId>)
    requires Pass(p, q, ids, i, chosen) && i < |ids|
    ensures ids[i] in p.mems && ids[i] in q.mems && q.mems[ids[i]] == p.mems[ids[i]] && ids[i] in chosen
    ensures AllOwned(p, chosen) ==> AllOwned(q, {ids[i]})
    ensures NoDup(ids) && Elems(ids) == chosen && chosen <= p.mems.Keys
    ensures Elems(ids[..i]) <= chosen && Elems(ids[..i + 1]) == Elems(ids[..i]) + {ids[i]}
    ensures Reclaimed(p.mems, q.mems, Elems(ids[..i]))
  {
    hide AllOwned, NoDup, Reclaimed;
    assert ids[i] in Elems(ids);
    assert ids[..i + 1] == ids[..i] + [ids[i]];
    if AllOwned(p, chosen) {
      assert AllOwned(q, chosen);
      FewerOwned(q, chosen, {ids[i]});
    }
  }

  lemma PassStep(p: Point, q: Point, r: Point, ids: seq<SegId>, i: nat, chosen: set<SegId>, full: set<SegId>)
    requires Pass(p, q, ids, i, chosen) && i < |ids|
    requires KeepsOwned(q, r, {ids[i]}) && Reclaimed(q.mems, r.mems, {ids[i]})
    requires SameExcept(q.mems, r.mems, full, ids[i]) && Pending(ids, i, full) && Flushed(r, ids[i])
    ensures Pass(p, r, ids, i + 1, chosen)
  {
    assert KeepsFlushed(q, r);
    PassNext(p, q, ids, i, chosen);
    hide KeepsOwned, Reclaimed, Flushed;
    KeepsOwnedBoth(p, q, r, chosen, ids[i]);
    ReclaimedMore(p.mems, q.mems, r.mems, Elems(ids[..i]), {ids[i]});
  }

  lemma PassUsed(mems: Mems, ids: seq<SegId>, i: nat, chosen: set<SegId>)
    requires NoDup(ids) && Elems(ids) == chosen && chosen <= mems.Keys && i < |ids|
    ensures ids[i] in mems && UsedOf(mems, ids, i + 1) == UsedOf(mems, ids, i) + mems[ids[i]].used
    ensures UsedOf(mems, ids, i + 1) <= TotalUsed(mems, chosen)
  {
    hide TotalUsed;
    assert ids[i] in Elems(ids);
    assert ids[..i + 1] == ids[..i] + [ids[i]];
    assert Elems(ids[..i + 1]) == Elems(ids[..i]) + {ids[i]};
    assert ids[i] !in ids[..i];
    TotalUsedAdd(mems, Elems(ids[..i]), ids[i]);
    TotalUsedGrows(mems, Elems(ids[..i + 1]), chosen);
  }

  /** A pass that stops has kept what it has done so far. */
  lemma PassStops(p: Point, q: Point, ids: seq<SegId>, i: nat, chosen: set<SegId>)
    requires Pass(p, q, ids, i, chosen)
    ensures KeepsOwned(p, q, chosen)
    ensures Conserved(p.table, p.mems, p.files) ==> Conserved(q.table, q.mems, q.files)
    ensures i == |ids| ==>
              Elems(ids[..i]) == chosen && Reclaimed(p.mems, q.mems, chosen) &&
              UsedOf(p.mems, ids, i) == TotalUsed(p.mems, chosen)
  {
    hide AllOwned, NoDup, Conserved, TotalUsed;
    ConservedIffOwned(p);
    ConservedIffOwned(q);
    if i == |ids| {
      assert ids[..i] == ids;
    }
    if Conserved(p.table, p.mems, p.files) {
      assert AllOwned(q, p.mems.Keys);
      assert q.mems.Keys == p.mems.Keys;
    }
  }

  /** After `i` rounds recovery looks for some key where a round has moved it from. */
  ghost predicate StaleFrom(p: Point, ids: seq<SegId>, i: nat) {
    i <= |ids| && Stale(p, Elems(ids), Elems(ids[i..]))
  }

  /** One round leaves recovery stale if it was before, or if a checkpoint fired in it. */
  lemma PassStale(p: Point, q: Point, ids: seq<SegId>, i: nat, full: set<SegId>, target: SegId, fired: bool,
                  fires: bool)
    requires NoDup(ids) && i < |ids| && Pending(ids, i, full) && target !in full
    requires KeepsStale(p, q, ids[i], target, fires) && (fired ==> StaleFrom(p, ids, i))
    ensures fired || fires ==> StaleFrom(q, ids, i + 1)
  {
    hide SegmentOf, NoDup, RecoveredTable;
    if fired || fires {
      assert ids[i] in ids[i..];
      assert target !in ids[i..];
      assert Stale(q, Elems(ids), Elems(ids[i..]));
      assert forall x :: x in ids[i + 1..] ==> x in ids[i..];
    }
  }

  /** A checkpoint in the middle of a finished pass loses a key. */
  lemma PassLoses(p: Point, q: Point, ids: seq<SegId>, chosen: set<SegId>)
    requires Pass(p, q, ids, |ids|, chosen) && AllOwned(p, chosen) && Inv(q.table, q.mems, q.files)
    requires StaleFrom(q, ids, |ids|)
    ensures !Recoverable(q.files)
  {
    hide Inv, AllOwned, Recoverable, Stale, Flushed, Reclaimed, NoDup;
    assert AllOwned(q, chosen);
    StaleIsLost(q, chosen, Elems(ids[|ids|..]));
  }

  /**
   * When the records of `n` slots from emptied segments are all there: if they stay below the
   * threshold and no log write failed, and exactly below the threshold if nothing failed.
   */
  ghost predicate SafeWhen(ix: Index, l: Log, n: nat, keySize: nat, safe: bool, l': Log) {
    (l.isOpen && !l.missed && !l'.missed && !Reaches(ix, l.written, n, keySize) ==> safe) &&
    (l.isOpen && !l'.faulted ==> (safe <==> !Reaches(ix, l.written, n, keySize)))
  }

  lemma GrowthIsSafe(ix: Index, l: Log, n: nat, keySize: nat, fired: bool, kept: bool, m: Log, l': Log)
    requires Growth(ix, l, n, keySize, fired, kept, m) && (m.faulted ==> l'.faulted) && (m.missed ==> l'.missed)
    ensures SafeWhen(ix, l, n, keySize, kept, l')
  {
    hide Reaches, LogBytes, RecordSize;
  }

  /** Some appending segment is filled to its last slot. */
  ghost predicate SomeFilled(c: Classes, mems: Mems) {
    exists x :: x in c.appending && AtEnd(mems, x)
  }

  /** The live slots of the segments from `i` on. */
  ghost function UsedFrom(mems: Mems, ids: seq<SegId>, i: nat, chosen: set<SegId>): nat {
    if chosen <= mems.Keys && UsedOf(mems, ids, i) <= TotalUsed(mems, chosen)
    then TotalUsed(mems, chosen) - UsedOf(mems, ids, i) else 0
  }

  lemma UsedFromNext(mems: Mems, ids: seq<SegId>, i: nat, chosen: set<SegId>)
    requires NoDup(ids) && Elems(ids) == chosen && chosen <= mems.Keys && i < |ids|
    ensures ids[i] in mems && UsedFrom(mems, ids, i, chosen) == mems[ids[i]].used + UsedFrom(mems, ids, i + 1, chosen)
  {
    hide UsedOf, TotalUsed;
    PassUsed(mems, ids, i, chosen);
  }

  /** The segments from `i` on are still classified full. */
  ghost predicate Pending(ids: seq<SegId>, i: nat, full: set<SegId>) {
    forall j :: i <= j < |ids| ==> ids[j] in full
  }

  lemma PendingNext(ids: seq<SegId>, i: nat, full: set<SegId>, full': set<SegId>)
    requires Pending(ids, i, full) && NoDup(ids) && i < |ids| && full - {ids[i]} <= full'
    ensures ids[i] in full && Pending(ids, i + 1, full')
  {
    Later(ids, i);
  }

  /** Round `i` of a pass that began at `p` with log `l`. */
  method Round(ix: Index, ids: seq<SegId>, i: nat, ghost p: Point, ghost l: Log, ghost chosen: set<SegId>,
               ghost fired: bool, ghost kept: bool)
      returns (s: Status, ghost fired': bool, ghost kept': bool, ghost safe: bool, ghost moved: nat,
               ghost emptied: set<SegId>)
    requires ix.Valid() && ix.disk.files in ix.disk.seen && i < |ids| && Pending(ids, i, ix.mgr.fullSet)
    requires Pass(p, Here(ix), ids, i, chosen) && ix.disk.files.keySize == p.files.keySize && chosen <= p.mems.Keys
    requires Growth(ix, l, UsedOf(p.mems, ids, i), p.files.keySize, fired, kept, LogHere(ix))
    requires Moved(p.mems, ix.mgr.MemsNow(), UsedOf(p.mems, ids, i), Elems(ids[..i]))
    requires fired && !ix.disk.faulted && AllOwned(p, chosen) ==> StaleFrom(Here(ix), ids, i)
    modifies ix`table, ix.mgr, ix.mgr.segments.Values, ix.wal, ix.disk
    ensures ix.disk.files.keySize == p.files.keySize
    ensures ix.Valid() && ix.mgr.segments == old(ix.mgr.segments) && ix.disk.files in ix.disk.seen
    ensures s == Ok || s == NoSpace || s == Status.Full || Failure(s)
    ensures old(ix.disk.faulted) || Failure(s) ==> ix.disk.faulted
    ensures ix.ViewNow() == old(ix.ViewNow())
    ensures Pending(ids, i + 1, ix.mgr.fullSet)
    ensures NoDup(old(ix.mgr.fullOrder)) ==> NoDup(ix.mgr.fullOrder)
    ensures old(OneAppending(ix.mgr.Classification(), ix.mgr.MemsNow())) ==>
              OneAppending(ix.mgr.Classification(), ix.mgr.MemsNow())
    ensures ids[i] in p.mems &&
            (!ix.disk.faulted && p.mems[ids[i]].used > 0 && old(Blocked(ix.mgr.Classification(), ix.mgr.MemsNow())) ==>
               s == Status.Full)
    ensures s == NoSpace ==> ix.mgr.idleSet == {} && ix.mgr.appendingSet == {}
    ensures s == Status.Full && !ix.disk.faulted ==> SomeFilled(ix.mgr.Classification(), ix.mgr.MemsNow())
    ensures !ix.disk.faulted ==>
              KeepsRoom(old(ix.mgr.Classification()), old(ix.mgr.MemsNow()), p.mems[ids[i]].used, s,
                        ix.mgr.Classification(), ix.mgr.MemsNow())
    ensures s == NoSpace || s == Status.Full ==> ids[i] !in emptied
    ensures s == Ok || s == NoSpace ==> Pass(p, Here(ix), ids, if s == Ok then i + 1 else i, chosen)
    ensures emptied <= chosen && (s == Ok ==> emptied == Elems(ids[..i + 1]))
    ensures Reclaimed(p.mems, ix.mgr.MemsNow(), emptied) && Moved(p.mems, ix.mgr.MemsNow(), moved, emptied)
    ensures Growth(ix, l, moved, p.files.keySize, fired', kept', LogHere(ix))
    ensures moved <= TotalUsed(p.mems, chosen) && (s == Ok ==> moved == UsedOf(p.mems, ids, i + 1))
    ensures (kept' ==> safe) && (s == Ok && safe ==> kept')
    ensures SafeWhen(ix, l, TotalUsed(p.mems, emptied), p.files.keySize, safe, LogHere(ix))
    ensures AllOwned(p, chosen) && (kept ==> old(Durable(ix))) ==>
              (safe ==> AllRecover(ix.disk.seen, ix.ViewNow())) && (kept' ==> Durable(ix))
    ensures s == Ok && fired' && !ix.disk.faulted && AllOwned(p, chosen) ==> StaleFrom(Here(ix), ids, i + 1)
  {
    hide Index.Valid, Index.ViewNow, SegmentManager.Valid, SegmentManager.MemsNow, NoDup, OneAppending,
         RecoveredTable, KeepsStale, StaleFrom, Flushed, Durable, AllRecover, Reclaimed, KeepsOwned, AllOwned,
         Growth, SafeWhen, Moved, Blocked, TotalUsed, SameExcept, Elems, Pass, UsedOf, Settled,
         NoneFound, FitsBehind, AtEnd, KeepsRoom;
    ghost var q, m, full, n := Here(ix), LogHere(ix), ix.mgr.fullSet, UsedOf(p.mems, ids, i);
    PassNext(p, q, ids, i, chosen);
    PassUsed(p.mems, ids, i, chosen);
    UsedIs(p.mems, ids, i, chosen);
    ix.MemsCover();
    ghost var src, size := ids[i], p.files.keySize;
    ghost var target, more, gone;
    s, fired', kept', more, gone, target := CompactOne(ix, ids[i]);
    moved, emptied := n + more, Elems(ids[..i]) + if gone then {src} else {};
    ReclaimedMore(p.mems, q.mems, ix.mgr.MemsNow(), Elems(ids[..i]), if gone then {src} else {});
    MovedMore(p.mems, q.mems, ix.mgr.MemsNow(), n, Elems(ids[..i]), src, more, gone);
    PendingNext(ids, i, full, ix.mgr.fullSet);
    RoundIsSafe(ix, l, n, size, fired, kept, m, more, fired', kept', LogHere(ix), gone);
    if s == Ok {
      PassStep(p, q, Here(ix), ids, i, chosen, full);
      if l.isOpen && !ix.disk.faulted && AllOwned(p, chosen) {
        PassStale(q, Here(ix), ids, i, full, target, fired, fired');
      }
    }
    fired', kept', safe := fired || fired', kept && kept', kept && (kept' || !gone);
  }

  /** The used slots of the first segments, as a sum. */
  lemma UsedIs(mems: Mems, ids: seq<SegId>, i: nat, chosen: set<SegId>)
    requires i < |ids| && Elems(ids) == chosen && chosen <= mems.Keys
    ensures Elems(ids[..i]) <= mems.Keys && UsedOf(mems, ids, i) == TotalUsed(mems, Elems(ids[..i]))
    ensures Elems(ids[..i + 1]) <= mems.Keys && UsedOf(mems, ids, i + 1) == TotalUsed(mems, Elems(ids[..i + 1]))
    ensures Elems(ids[..i + 1]) <= chosen && Elems(ids[..i]) + {} == Elems(ids[..i])
    ensures NoDup(ids) ==> ids[i] !in Elems(ids[..i])
  {
    hide TotalUsed;
    assert forall x :: x in ids[..i + 1] ==> x in ids;
    assert forall x :: x in ids[..i] ==> x in ids;
  }

  /** The log after one more round. */
  lemma RoundIsSafe(ix: Index, l: Log, n: nat, keySize: nat, fired: bool, kept: bool, m: Log, n': nat, fires: bool,
                    keeps: bool, l': Log, gone: bool)
    requires Growth(ix, l, n, keySize, fired, kept, m) && Growth(ix, m, n', keySize, fires, keeps, l')
    ensures Growth(ix, l, n + n', keySize, fired || fires, kept && keeps, l')
    ensures SafeWhen(ix, l, if gone then n + n' else n, keySize, kept && (keeps || !gone), l')
    ensures (m.faulted ==> l'.faulted) && (fired || fires ==> l.isOpen) && (l.isOpen && !l'.faulted ==> m.isOpen)
  {
    hide Growth, SafeWhen, Reaches;
    GrowthMeans(ix, l, n, keySize, fired, kept, m);
    GrowthMeans(ix, m, n', keySize, fires, keeps, l');
    GrowthAdds(ix, l, n, keySize, fired, kept, m, n', fires, keeps, l');
    if gone {
      GrowthIsSafe(ix, l, n + n', keySize, fired || fires, kept && keeps, l', l');
    } else {
      GrowthIsSafe(ix, l, n, keySize, fired, kept, m, l');
    }
  }

  /** The rounds of a pass over the segments `ids`; `emptied` are those that were emptied. */
  method Rounds(ix: Index, ids: seq<SegId>, ghost chosen: set<SegId>)
      returns (s: Status, ghost fired: bool, ghost kept: bool, ghost safe: bool, ghost moved: nat,
               ghost emptied: set<SegId>)
    requires ix.Valid() && ix.disk.files in ix.disk.seen && Pending(ids, 0, ix.mgr.fullSet)
    requires NoDup(ids) && Elems(ids) == chosen && chosen <= ix.mgr.MemsNow().Keys
    modifies ix`table, ix.mgr, ix.mgr.segments.Values, ix.wal, ix.disk
    ensures ix.disk.files.keySize == old(ix.disk.files).keySize && ix.disk.files in ix.disk.seen
    ensures ix.Valid() && ix.mgr.segments == old(ix.mgr.segments)
    ensures s == Ok || s == NoSpace || s == Status.Full || Failure(s)
    ensures Failure(s) ==> ix.disk.faulted
    ensures ix.ViewNow() == old(ix.ViewNow())
    ensures NoDup(old(ix.mgr.fullOrder)) ==> NoDup(ix.mgr.fullOrder)
    ensures old(OneAppending(ix.mgr.Classification(), ix.mgr.MemsNow())) ==>
              OneAppending(ix.mgr.Classification(), ix.mgr.MemsNow())
    ensures emptied <= chosen && (s == Ok ==> emptied == chosen)
    ensures Reclaimed(old(ix.mgr.MemsNow()), ix.mgr.MemsNow(), emptied)
    ensures !ix.disk.faulted && old(Blocked(ix.mgr.Classification(), ix.mgr.MemsNow())) && ids != [] &&
            (forall id :: id in chosen ==> old(ix.mgr.MemsNow())[id].used > 0) ==>
              s == Status.Full
    ensures s == NoSpace ==> ix.mgr.idleSet == {} && ix.mgr.appendingSet == {}
    ensures s == Status.Full && !ix.disk.faulted ==> SomeFilled(ix.mgr.Classification(), ix.mgr.MemsNow())
    ensures s == NoSpace || s == Status.Full ==> emptied != chosen
    ensures !ix.disk.faulted &&
            old(Roomy(ix.mgr.Classification(), ix.mgr.MemsNow(), TotalUsed(ix.mgr.MemsNow(), chosen))) ==>
              s == Ok
    ensures s == Ok || s == NoSpace ==> KeepsOwned(old(Here(ix)), Here(ix), chosen)
    ensures (s == Ok || s == NoSpace) && Conserved(old(ix.table), old(ix.mgr.MemsNow()), old(ix.disk.files)) ==>
              Conserved(ix.table, ix.mgr.MemsNow(), ix.disk.files)
    ensures Moved(old(ix.mgr.MemsNow()), ix.mgr.MemsNow(), moved, emptied)
    ensures Growth(ix, old(LogHere(ix)), moved, old(ix.disk.files).keySize, fired, kept, LogHere(ix))
    ensures moved <= TotalUsed(old(ix.mgr.MemsNow()), chosen) &&
            (s == Ok ==> moved == TotalUsed(old(ix.mgr.MemsNow()), chosen))
    ensures (kept ==> safe) && (s == Ok && safe ==> kept)
    ensures SafeWhen(ix, old(LogHere(ix)), TotalUsed(old(ix.mgr.MemsNow()), emptied), old(ix.disk.files).keySize,
                     safe, LogHere(ix))
    ensures old(Durable(ix)) && AllOwned(old(Here(ix)), chosen) ==>
              (safe ==> AllRecover(ix.disk.seen, ix.ViewNow())) && (kept ==> Durable(ix))
    ensures !ix.disk.faulted && fired && s == Ok && AllOwned(old(Here(ix)), chosen) ==> !Recoverable(ix.disk.files)
  {
    hide Index.Valid, Index.ViewNow, Index.Synced, SegmentManager.Valid, SegmentManager.MemsNow, NoDup, OneAppending,
         AllRecover, Conserved, Reclaimed, KeepsOwned, AllOwned, Growth, Moved, SafeWhen, Blocked, TotalUsed, Elems,
         Pass, UsedOf, Pending, StaleFrom, Recoverable, UsedFrom, Roomy, KeepsRoom, SomeFilled;
    s, fired, kept, safe, moved, emptied := Ok, false, true, true, 0, {};
    ghost var p, l := Here(ix), LogHere(ix);
    ghost var refused := Blocked(ix.mgr.Classification(), p.mems) && forall id :: id in chosen ==> p.mems[id].used > 0;
    PassStarts(p, ids, chosen);
    RoundsStart(ix, ids, chosen, p.mems, l, p.files.keySize);
    ghost var roomy := Roomy(ix.mgr.Classification(), p.mems, TotalUsed(p.mems, chosen));
    for i := 0 to |ids|
      invariant ix.Valid() && ix.mgr.segments == old(ix.mgr.segments) && ix.disk.files in ix.disk.seen
      invariant Pending(ids, i, ix.mgr.fullSet) && ix.disk.files.keySize == p.files.keySize
      invariant s == Ok && ix.ViewNow() == old(ix.ViewNow())
      invariant NoDup(old(ix.mgr.fullOrder)) ==> NoDup(ix.mgr.fullOrder)
      invariant old(OneAppending(ix.mgr.Classification(), ix.mgr.MemsNow())) ==>
                  OneAppending(ix.mgr.Classification(), ix.mgr.MemsNow())
      invariant Pass(p, Here(ix), ids, i, chosen) && emptied == Elems(ids[..i])
      invariant moved == UsedOf(p.mems, ids, i) && Moved(p.mems, ix.mgr.MemsNow(), moved, emptied)
      invariant Growth(ix, l, moved, p.files.keySize, fired, kept, LogHere(ix))
      invariant i == 0 ==> ix.mgr.Classification() == old(ix.mgr.Classification()) && ix.mgr.MemsNow() == p.mems
      invariant refused && !ix.disk.faulted ==> i == 0
      invariant roomy && !ix.disk.faulted ==>
                  Roomy(ix.mgr.Classification(), ix.mgr.MemsNow(), UsedFrom(p.mems, ids, i, chosen))
      invariant safe == kept
      invariant old(Durable(ix)) && kept && AllOwned(p, chosen) ==> Durable(ix)
      invariant fired && !ix.disk.faulted && AllOwned(p, chosen) ==> StaleFrom(Here(ix), ids, i)
    {
      UsedFromNext(p.mems, ids, i, chosen);
      ghost var c, mems := ix.mgr.Classification(), ix.mgr.MemsNow();
      s, fired, kept, safe, moved, emptied := Round(ix, ids, i, p, l, chosen, fired, kept);
      if !ix.disk.faulted {
        RoomKept(c, mems, p.mems[ids[i]].used, s, ix.mgr.Classification(), ix.mgr.MemsNow(),
                 UsedFrom(p.mems, ids, i + 1, chosen));
      }
      if s != Ok {
        if s == NoSpace {
          PassStops(p, Here(ix), ids, i, chosen);
        }
        return;
      }
    }
    PassStops(p, Here(ix), ids, |ids|, chosen);
    GrowthIsSafe(ix, l, moved, p.files.keySize, fired, kept, LogHere(ix), LogHere(ix));
    if fired && !ix.disk.faulted && AllOwned(p, chosen) {
      InvNow(ix);
      PassLoses(p, Here(ix), ids, chosen);
    }
  }

  lemma RoomKept(c: Classes, mems: Mems, used: nat, s: Status, c': Classes, mems': Mems, left: nat)
    requires KeepsRoom(c, mems, used, s, c', mems')
    ensures Roomy(c, mems, used + left) ==> s == Ok && Roomy(c', mems', left)
  {
    hide Roomy;
    if Roomy(c, mems, used + left) {
      assert Roomy(c', mems', used + left - used);
    }
  }

  lemma RoundsStart(ix: Index, ids: seq<SegId>, chosen: set<SegId>, mems: Mems, l: Log, keySize: nat)
    requires Elems(ids) == chosen
    ensures Elems(ids[..0]) == {} && Growth(ix, l, 0, keySize, false, true, l) && Moved(mems, mems, 0, {})
    ensures (forall i :: 0 <= i < |ids| ==> ids[i] in chosen) && (chosen <= mems.Keys ==>
              UsedFrom(mems, ids, 0, chosen) == TotalUsed(mems, chosen))
  {
    hide Growth, Moved;
    assert ids[..0] == [];
    NothingLogged(ix, l, keySize);
    NoneMoved(mems);
  }

  /**
   * A whole pass.  The map never changes.  A finished pass loses no slot.  When every occupied
   * slot of the chosen segments has an entry, recovery survives any failure except the loss of
   * a record whose source has been emptied.  That takes a failed log write, or a checkpoint
   * midway, and whether one can fire is told before the pass by the size of the log.
   * `kept` says that the record of every moved slot is in the log, `safe` that those from the
   * segments in `emptied` are.
   */
  method RunCompaction(ix: Index, threshold: real)
      returns (s: Status, ghost fired: bool, ghost kept: bool, ghost safe: bool, ghost moved: nat,
               ghost emptied: set<SegId>)
    requires ix.Valid()
    modifies ix`table, ix.mgr, ix.mgr.segments.Values, ix.wal, ix.disk
    ensures ix.disk.files.keySize == old(ix.disk.files).keySize
    ensures ix.Valid() && ix.mgr.segments == old(ix.mgr.segments)
    ensures s == Ok || s == NoSpace || s == Status.Full || Failure(s)
    ensures Failure(s) ==> ix.disk.faulted
    ensures ix.ViewNow() == old(ix.ViewNow())
    ensures NoDup(old(ix.mgr.fullOrder)) ==> NoDup(ix.mgr.fullOrder)
    ensures old(OneAppending(ix.mgr.Classification(), ix.mgr.MemsNow())) ==>
              OneAppending(ix.mgr.Classification(), ix.mgr.MemsNow())
    // The emptied segments are reclaimed; a finished pass empties exactly those chosen at the start.
    ensures emptied <= old(ChosenNow(ix, threshold)) && (s == Ok ==> emptied == old(ChosenNow(ix, threshold)))
    ensures Reclaimed(old(ix.mgr.MemsNow()), ix.mgr.MemsNow(), emptied)
    // A pass is refused when only stuck segments are on offer.
    ensures !ix.disk.faulted && old(Blocked(ix.mgr.Classification(), ix.mgr.MemsNow())) &&
            old(ChosenNow(ix, threshold)) != {} &&
            (forall id :: id in old(ChosenNow(ix, threshold)) ==> old(ix.mgr.MemsNow())[id].used > 0) ==>
              s == Status.Full
    ensures s == NoSpace ==> ix.mgr.idleSet == {} && ix.mgr.appendingSet == {}
    ensures s == Status.Full && !ix.disk.faulted ==> SomeFilled(ix.mgr.Classification(), ix.mgr.MemsNow())
    ensures s == NoSpace || s == Status.Full ==> emptied != old(ChosenNow(ix, threshold))
    // It finishes when whatever segment is picked has room for all the live slots.
    ensures !ix.disk.faulted && old(Roomy(ix.mgr.Classification(), ix.mgr.MemsNow(), LiveSlots(ix, threshold))) ==>
              s == Ok
    // Slots.
    ensures s == Ok || s == NoSpace ==> KeepsOwned(old(Here(ix)), Here(ix), old(ChosenNow(ix, threshold)))
    ensures (s == Ok || s == NoSpace) && Conserved(old(ix.table), old(ix.mgr.MemsNow()), old(ix.disk.files)) ==>
              Conserved(ix.table, ix.mgr.MemsNow(), ix.disk.files)
    // The log.
    ensures Growth(ix, old(LogHere(ix)), moved, old(ix.disk.files).keySize, fired, kept, LogHere(ix))
    ensures Moved(old(ix.mgr.MemsNow()), ix.mgr.MemsNow(), moved, emptied)
    ensures moved <= old(LiveSlots(ix, threshold)) && (s == Ok ==> moved == old(LiveSlots(ix, threshold)))
    ensures Bounds(ix, old(LogHere(ix)), old(LiveSlots(ix, threshold)), old(ix.disk.files).keySize, fired, kept,
                   LogHere(ix))
    // When records can be missing: below the threshold exactly if a log write failed.
    ensures old(ix.wal.isOpen) && !old(ix.disk.logFaulted) &&
            !Reaches(ix, old(ix.wal.written), old(LiveSlots(ix, threshold)), old(ix.disk.files).keySize) ==>
              (kept <==> !ix.disk.logFaulted)
    ensures (kept ==> safe) && (s == Ok && safe ==> kept)
    ensures SafeWhen(ix, old(LogHere(ix)), TotalUsed(old(ix.mgr.MemsNow()), emptied), old(ix.disk.files).keySize,
                     safe, LogHere(ix))
    // Recovery, whatever fails.
    ensures old(ix.Synced()) && AllOwned(old(Here(ix)), old(ChosenNow(ix, threshold))) ==>
              (safe ==> AllRecover(ix.disk.seen, ix.ViewNow())) && (kept ==> ix.Synced())
    // Recovery without failures: for a finished pass the size of the log before it decides.
    ensures !ix.disk.faulted && fired && s == Ok && AllOwned(old(Here(ix)), old(ChosenNow(ix, threshold))) ==>
              !Recoverable(ix.disk.files)
    ensures old(ix.Synced()) && old(ix.wal.isOpen) && !ix.disk.faulted && s == Ok &&
            AllOwned(old(Here(ix)), old(ChosenNow(ix, threshold))) ==>
              (Recoverable(ix.disk.files) <==>
               !Reaches(ix, old(ix.wal.written), old(LiveSlots(ix, threshold)), old(ix.disk.files).keySize))
  {
    hide Index.Valid, Index.ViewNow, SegmentManager.Valid, SegmentManager.MemsNow, NoDup, OneAppending, AllRecover,
         Conserved, NeedsCompaction, Reclaimed, Chosen, KeepsOwned, AllOwned, Growth, Moved, SafeWhen, Reaches, Blocked,
         TotalUsed, Elems, Pending, Recoverable, RecoveredTable, Roomy, SomeFilled;
    BeginRun(ix);
    ghost var chosen, n, l := ChosenNow(ix, threshold), LiveSlots(ix, threshold), LogHere(ix);
    var ids := Candidates(ix.mgr, threshold);
    ChosenAre(ids, ix.mgr.fullSet, ix.mgr.hotSegments, ix.mgr.MemsNow(), threshold);
    CandidatesPend(ids, ix.mgr.fullSet, chosen);
    s, fired, kept, safe, moved, emptied := Rounds(ix, ids, chosen);
    GrowthBounds(ix, l, moved, n, ix.disk.files.keySize, fired, kept, LogHere(ix));
    GrowthMeans(ix, l, moved, ix.disk.files.keySize, fired, kept, LogHere(ix));
    if Durable(ix) {
      DurableRecovers(ix);
    }
  }

  lemma CandidatesPend(ids: seq<SegId>, full: set<SegId>, chosen: set<SegId>)
    requires Elems(ids) == chosen && forall id :: id in ids ==> id in full
    ensures Pending(ids, 0, full) && (chosen != {} ==> ids != [])
  {
  }

  lemma ChosenAre(ids: seq<SegId>, full: set<SegId>, hot: set<SegId>, mems: Mems, threshold: real)
    requires forall id :: id in ids <==> id in full && id !in hot && id in mems && NeedsCompaction(mems[id], threshold)
    ensures Elems(ids) == Chosen(full - hot, mems, threshold)
  {
    hide NeedsCompaction;
  }
}
