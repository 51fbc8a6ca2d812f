/** The segment manager: which segments are idle, appending or full, and in what order. */
module Manager {
  import opened Base
  import opened Offset
  import opened Files
  import opened Disk
  import opened Segment
  import opened Store
  import StateFile
  import Bitmap

  function Elems(s: seq<SegId>): set<SegId> {
    set x | x in s
  }

  ghost predicate NoDup(s: seq<SegId>) {
    forall i, j :: 0 <= i < j < |s| ==> s[i] != s[j]
  }

  lemma NoDupCons(x: SegId, s: seq<SegId>)
    ensures NoDup(s) && x !in s ==> NoDup([x] + s)
  {
  }

  /** std::remove followed by erase. */
  function Without(s: seq<SegId>, id: SegId): (r: seq<SegId>)
    ensures forall x :: x in r <==> x in s && x != id
  {
    if s == [] then [] else if s[0] == id then Without(s[1..], id) else [s[0]] + Without(s[1..], id)
  }

  lemma {:induction false} WithoutKeepsOnce(s: seq<SegId>, id: SegId)
    requires NoDup(s)
    ensures NoDup(Without(s, id))
  {
    if s != [] {
      assert s == [s[0]] + s[1..] && s[0] !in s[1..];
      WithoutKeepsOnce(s[1..], id);
      NoDupCons(s[0], Without(s[1..], id));
    }
  }

  datatype Classes = Classes(idle: set<SegId>, appending: set<SegId>, full: set<SegId>, order: seq<SegId>)

  /** Every registered segment is in exactly one class, and the order lists the full ones. */
  ghost predicate Partition(c: Classes, ids: set<SegId>) {
    c.idle + c.appending + c.full == ids &&
    c.idle !! c.appending && c.idle !! c.full && c.appending !! c.full &&
    Elems(c.order) == c.full
  }

  ghost predicate InClass(c: Classes, id: SegId, st: SegState) {
    match st
    case Idle => id in c.idle
    case Appending => id in c.appending
    case Full => id in c.full
  }

  function MarkedFull(c: Classes, id: SegId): Classes {
    if id in c.full then c
    else Classes(c.idle - {id}, c.appending - {id}, c.full + {id}, c.order + [id])
  }

  function Released(c: Classes, id: SegId): Classes {
    Classes(c.idle + {id}, c.appending - {id}, c.full - {id}, Without(c.order, id))
  }

  function Promoted(c: Classes, id: SegId): Classes {
    c.(idle := c.idle - {id}, appending := c.appending + {id})
  }

  function Added(c: Classes, id: SegId, st: SegState): Classes {
    match st
    case Idle => c.(idle := c.idle + {id})
    case Appending => c.(appending := c.appending + {id})
    case Full => c.(full := c.full + {id}, order := c.order + [id])
  }

  /** Every segment is in the class of its own state. */
  ghost predicate ByState(c: Classes, mems: Mems) {
    c.idle + c.appending + c.full == mems.Keys &&
    forall id :: id in mems ==>
      (id in c.idle <==> mems[id].state == SegState.Idle) && (id in c.appending <==> mems[id].state == Appending) &&
      (id in c.full <==> mems[id].state == SegState.Full)
  }

  lemma AddedByState(c: Classes, mems: Mems, id: SegId, m: SegMem)
    requires ByState(c, mems) && id !in mems
    ensures ByState(Added(c, id, m.state), mems[id := m])
  {
  }

  lemma MarkedFullKeeps(c: Classes, ids: set<SegId>, id: SegId)
    requires Partition(c, ids) && id in ids
    ensures Partition(MarkedFull(c, id), ids) && id in MarkedFull(c, id).full
    ensures NoDup(c.order) ==> NoDup(MarkedFull(c, id).order)
  {
    if id !in c.full {
      assert id !in c.order;
      assert Elems(c.order + [id]) == Elems(c.order) + {id};
    }
  }

  lemma AddedKeeps(c: Classes, ids: set<SegId>, id: SegId, st: SegState)
    requires Partition(c, ids) && id !in ids
    ensures Partition(Added(c, id, st), ids + {id})
    ensures NoDup(c.order) ==> NoDup(Added(c, id, st).order)
  {
    assert id !in c.full && id !in c.order;
    assert Elems(c.order + [id]) == Elems(c.order) + {id};
  }

  lemma ReleasedKeeps(c: Classes, ids: set<SegId>, id: SegId)
    requires Partition(c, ids) && id in ids
    ensures Partition(Released(c, id), ids)
    ensures NoDup(c.order) ==> NoDup(Released(c, id).order)
  {
    if NoDup(c.order) {
      WithoutKeepsOnce(c.order, id);
    }
  }

  lemma PromotedKeeps(c: Classes, ids: set<SegId>, id: SegId)
    requires Partition(c, ids) && id in c.idle
    ensures Partition(Promoted(c, id), ids)
  {
  }

  // ---------------------------------------------------------------- saved states

  /** The registered ids of a saved list, in order. */
  function Kept(ids: StateFile.Ids, known: set<SegId>): (r: seq<SegId>)
    ensures forall x :: x in r <==> x in ids && x in known
  {
    if ids == [] then []
    else
      var n := |ids| - 1;
      assert ids == ids[..n] + [ids[n]];
      if ids[n] < SEGMENT_UNIT && ids[n] in known then Kept(ids[..n], known) + [ids[n]] else Kept(ids[..n], known)
  }

  ghost predicate Mentioned(l: StateFile.Lists, id: SegId) {
    id in l.full || id in l.appending || id in l.idle
  }

  function ClassOf(l: StateFile.Lists, id: SegId, st: SegState): SegState {
    if id in l.full then SegState.Full
    else if id in l.appending then Appending
    else if id in l.idle then SegState.Idle
    else st
  }

  /** The classification that loading `l` produces over segments with the given states. */
  ghost predicate LoadedAs(c: Classes, l: StateFile.Lists, states: map<SegId, SegState>) {
    Partition(c, states.Keys) &&
    (forall id :: id in states ==> InClass(c, id, ClassOf(l, id, states[id]))) &&
    Kept(l.full, states.Keys) <= c.order &&
    var tail := c.order[|Kept(l.full, states.Keys)|..];
    NoDup(tail) && forall x :: x in tail ==> !Mentioned(l, x)
  }

  /** The lists that saving `c` may write: the order as it is, the sets in any order. */
  ghost predicate SavedAs(c: Classes, l: StateFile.Lists) {
    l.full == c.order &&
    (forall x: nat :: x in l.appending <==> x < SEGMENT_UNIT && x in c.appending) &&
    (forall x: nat :: x in l.idle <==> x < SEGMENT_UNIT && x in c.idle)
  }

  lemma {:induction false} KeptAll(ids: seq<SegId>, known: set<SegId>)
    requires forall x :: x in ids ==> x in known
    ensures Kept(ids, known) == ids
  {
    if ids != [] {
      KeptAll(ids[..|ids| - 1], known);
    }
  }

  lemma HasElement(s: seq<SegId>)
    requires s != []
    ensures exists x :: x in s
  {
    assert s[0] in s;
  }

  lemma SavedSetsAreRestored(c: Classes, l: StateFile.Lists, states: map<SegId, SegState>, c': Classes)
    requires Partition(c, states.Keys) && SavedAs(c, l) && LoadedAs(c', l, states)
    ensures c'.idle == c.idle && c'.appending == c.appending && c'.full == c.full
    ensures forall id :: id in states ==> Mentioned(l, id)
  {
    assert forall x :: x in c.order <==> x in Elems(c.order);
    forall id | id in states.Keys
      ensures (id in c.idle <==> id in c'.idle) && (id in c.appending <==> id in c'.appending)
      ensures id in c.full <==> id in c'.full
      ensures Mentioned(l, id)
    {
      assert InClass(c', id, ClassOf(l, id, states[id]));
      assert id in c.idle + c.appending + c.full;
    }
  }

  /** Loading what was saved, over the same segments, restores all classes and the order. */
  lemma SavedStateIsRestored(c: Classes, l: StateFile.Lists, states: map<SegId, SegState>, c': Classes)
    requires Partition(c, states.Keys) && SavedAs(c, l) && LoadedAs(c', l, states)
    ensures c' == c
  {
    hide InClass, ClassOf, Kept, NoDup;
    SavedSetsAreRestored(c, l, states, c');
    assert forall x :: x in c.order ==> x in Elems(c.order);
    KeptAll(c.order, states.Keys);
    NoTail(c.order, c'.order, l, states.Keys);
  }

  lemma NoTail(a: seq<SegId>, b: seq<SegId>, l: StateFile.Lists, ids: set<SegId>)
    requires a <= b && Elems(b) <= ids
    requires forall x :: x in b[|a|..] ==> !Mentioned(l, x)
    requires forall x :: x in ids ==> Mentioned(l, x)
    ensures a == b
  {
    var tail := b[|a|..];
    assert b == a + tail;
    assert forall x :: x in tail ==> x in Elems(b);
    if tail != [] {
      HasElement(tail);
      assert false;
    }
  }

  /** Loading keeps the order free of duplicates exactly when the saved list was. */
  lemma OrderOnceIff(c: Classes, l: StateFile.Lists, states: map<SegId, SegState>)
    requires LoadedAs(c, l, states)
    ensures NoDup(c.order) <==> NoDup(Kept(l.full, states.Keys))
  {
    var kept := Kept(l.full, states.Keys);
    var tail := c.order[|kept|..];
    assert c.order == kept + tail;
    if NoDup(kept) {
      forall i, j | 0 <= i < j < |c.order|
        ensures c.order[i] != c.order[j]
      {
        if i < |kept| <= j {
          assert c.order[i] in kept && c.order[j] in tail;
        }
      }
    }
    if NoDup(c.order) {
      assert forall i :: 0 <= i < |kept| ==> kept[i] == c.order[i];
    }
  }

  // ---------------------------------------------------------------- the manager

  /** What the segment reports as free: unappended slots and deleted ones. */
  function FreeSlots(m: SegMem): int {
    m.total - m.cursor + m.deleted
  }

  /** Deleted slots count as free although nothing can be appended to them. */
  lemma FreeMeansUnused(m: SegMem)
    requires Consistent(m)
    ensures FreeSlots(m) == m.total - m.used
    ensures Stuck(m) <==> m.cursor == m.total && m.deleted > 0
  {
    hide Bitmap.IsSet, Bitmap.Count;
  }

  /** An append of `c` that was written completely. */
  ghost predicate Filling(mems: Mems, f: Files, mems': Mems, f': Files, id: SegId, slot: nat, c: Slot) {
    id in mems && id in f.segs && slot < |f.segs[id].slots| && slot / 8 < |mems[id].bitmap| &&
    slot == mems[id].cursor < mems[id].total &&
    mems' == mems[id := Appended(mems[id])] &&
    f' == Filled(f, id, slot, c, mems'[id].bitmap)
  }

  ghost predicate Occupied(mems: Mems, id: SegId, i: nat) {
    id in mems && i < mems[id].total && i / 8 < |mems[id].bitmap| && mems[id].used > 0 &&
    Bitmap.IsSet(mems[id].bitmap, i)
  }

  /** Filled to the last slot, yet reported as having room because of deleted slots. */
  ghost predicate Stuck(m: SegMem) {
    m.cursor == m.total && FreeSlots(m) > 0
  }

  /** Only stuck segments are on offer. */
  ghost predicate Blocked(c: Classes, mems: Mems) {
    (exists x :: x in c.appending && x in mems && Stuck(mems[x])) &&
    (forall x :: x in c.appending && x in mems && FreeSlots(mems[x]) > 0 ==> Stuck(mems[x]))
  }

  /** How the classes change when an active segment, if any, is found. */
  ghost predicate Picked(c: Classes, c': Classes, mems: Mems, found: Option<SegId>) {
    match found
    case None =>
      c.idle == {} && c'.idle == {} && c'.appending == {} &&
      (forall x :: x in c.appending ==> x in mems && FreeSlots(mems[x]) <= 0)
    case Some(id) =>
      id in mems && id in c'.appending && (forall x :: x in c.full ==> x in c'.full) &&
      (if id in c.appending then
         FreeSlots(mems[id]) > 0 && c'.idle == c.idle && c'.appending <= c.appending &&
         (forall x :: x in c.appending && x !in c'.appending ==> x in mems && FreeSlots(mems[x]) <= 0)
       else
         id in c.idle && c'.idle == c.idle - {id} && c'.appending == {id} &&
         (forall x :: x in c.appending ==> x in mems && FreeSlots(mems[x]) <= 0))
  }

  /** No segment is on offer: none is idle, and no appending one reports free slots. */
  ghost predicate NoneFound(c: Classes, mems: Mems) {
    c.idle == {} && forall x :: x in c.appending && x in mems ==> FreeSlots(mems[x]) <= 0
  }

  lemma FoundIfOffered(c: Classes, c': Classes, mems: Mems, found: Option<SegId>)
    requires Picked(c, c', mems, found)
    ensures found.None? <==> NoneFound(c, mems)
    ensures found.None? ==> c'.idle == {} && c'.appending == {}
  {
  }

  /** At most one segment is appending, idle ones are empty, and no segment is without slots. */
  ghost predicate OneAppending(c: Classes, mems: Mems) {
    (forall x, y :: x in c.appending && y in c.appending ==> x == y) &&
    (forall id :: id in c.idle && id in mems ==> mems[id].cursor == 0) &&
    (forall id :: id in mems ==> mems[id].total > 0)
  }

  /** No idle segment is left and every appending one is filled to its last slot. */
  ghost predicate NoRoom(c: Classes, mems: Mems) {
    c.idle == {} && forall id :: id in c.appending && id in mems ==> mems[id].cursor == mems[id].total
  }

  /** With one appending segment, the search fails only for lack of room. */
  lemma PickFindsRoom(c: Classes, c': Classes, mems: Mems, found: Option<SegId>)
    requires Partition(c, mems.Keys) && Picked(c, c', mems, found) && OneAppending(c, mems)
    requires forall id :: id in mems ==> Consistent(mems[id])
    ensures OneAppending(c', mems)
    ensures found.None? ==> NoRoom(c, mems)
    ensures found.Some? && mems[found.value].cursor < mems[found.value].total ==> !NoRoom(c, mems)
    ensures found.Some? && mems[found.value].cursor == mems[found.value].total ==>
              c'.appending == {found.value} && c'.idle == c.idle && (NoRoom(c, mems) <==> c.idle == {})
  {
    hide Consistent;
    forall id | id in mems
      ensures mems[id].cursor <= mems[id].total
    {
      InRange(mems[id]);
    }
    if found.Some? {
      assert found.value in c'.appending;
    }
  }

  /** After a full segment is retired, the second search finds an empty one if any is idle. */
  lemma SecondPickFindsRoom(c: Classes, id: SegId, c': Classes, mems: Mems, found: Option<SegId>)
    requires Partition(c, mems.Keys) && id in mems && c.appending == {id} && OneAppending(c, mems)
    requires Picked(MarkedFull(c, id), c', mems, found)
    ensures OneAppending(MarkedFull(c, id), mems) && OneAppending(c', mems)
    ensures found.None? <==> c.idle == {}
    ensures found.Some? ==> mems[found.value].cursor < mems[found.value].total
  {
    assert id in c.appending;
  }

  lemma AppendKeepsOne(c: Classes, mems: Mems, id: SegId)
    requires OneAppending(c, mems) && Partition(c, mems.Keys) && id in c.appending && id in mems
    requires mems[id].cursor / 8 < |mems[id].bitmap|
    ensures OneAppending(c, mems[id := Appended(mems[id])])
  {
    PartitionCovers(c, mems.Keys, id);
  }

  class SegmentManager {
    const disk: Disk
    var segments: map<SegId, Segment>
    var idleSet: set<SegId>
    var appendingSet: set<SegId>
    var fullSet: set<SegId>
    var fullOrder: seq<SegId>
    /** Segments exempt from compaction. */
    var hotSegments: set<SegId>

    ghost function Classification(): Classes
      reads this
    {
      Classes(idleSet, appendingSet, fullSet, fullOrder)
    }

    ghost function MemsNow(): Mems
      reads this, segments.Values
    {
      map id | id in segments :: segments[id].Mem()
    }

    ghost function States(): map<SegId, SegState>
      reads this, segments.Values
    {
      map id | id in segments :: segments[id].state
    }

    ghost predicate Valid()
      reads this, segments.Values
    {
      (forall id :: id in segments ==>
         segments[id].id == id && segments[id].disk == disk && segments[id].Valid()) &&
      Partition(Classification(), segments.Keys)
    }

    constructor (disk: Disk)
      ensures Valid() && this.disk == disk && segments == map[]
      ensures Classification() == Classes({}, {}, {}, []) && hotSegments == {}
    {
      this.disk := disk;
      segments := map[];
      idleSet, appendingSet, fullSet, fullOrder, hotSegments := {}, {}, {}, [], {};
    }

    method AddSegment(seg: Segment) returns (s: Status)
      requires Valid() && seg.Valid() && seg.disk == disk
      modifies this
      ensures Valid() && hotSegments == old(hotSegments)
      ensures s == if seg.id in old(segments) then InvalidArgument else Ok
      ensures s == Ok ==> segments == old(segments)[seg.id := seg]
      ensures s == Ok ==> Classification() == Added(old(Classification()), seg.id, seg.state)
      ensures s != Ok ==> segments == old(segments) && Classification() == old(Classification())
      ensures NoDup(old(fullOrder)) ==> NoDup(fullOrder)
    {
      hide Consistent, NoDup;
      var id := seg.id;
      if id in segments {
        return InvalidArgument;
      }
      AddedKeeps(Classification(), segments.Keys, id, seg.state);
      segments := segments[id := seg];
      match seg.state {
        case Idle => idleSet := idleSet + {id};
        case Appending => appendingSet := appendingSet + {id};
        case Full =>
          fullSet := fullSet + {id};
          fullOrder := fullOrder + [id];
      }
      s := Ok;
    }

    method MarkSegmentFull(id: SegId) returns (s: Status)
      requires Valid()
      modifies this`idleSet, this`appendingSet, this`fullSet, this`fullOrder
      ensures Valid() && MemsNow() == old(MemsNow())
      ensures s == if id in segments then Ok else NotFound
      ensures Classification() ==
              if id in segments then MarkedFull(old(Classification()), id) else old(Classification())
      ensures s == Ok ==> fullSet == old(fullSet) + {id} && id !in idleSet && id !in appendingSet
      ensures s == Ok && id !in old(fullSet) ==> fullOrder == old(fullOrder) + [id]
      ensures NoDup(old(fullOrder)) ==> NoDup(fullOrder)
    {
      hide Consistent, NoDup;
      if id !in segments {
        return NotFound;
      }
      MarkedFullKeeps(Classification(), segments.Keys, id);
      if id in fullSet {
        return Ok;
      }
      appendingSet := appendingSet - {id};
      idleSet := idleSet - {id};
      fullSet := fullSet + {id};
      fullOrder := fullOrder + [id];
      s := Ok;
    }

    method ReleaseSegment(id: SegId) returns (s: Status)
      requires Valid()
      modifies this
      ensures Valid() && segments == old(segments)
      ensures s == if id in segments then Ok else NotFound
      ensures Classification() == if id in segments then Released(old(Classification()), id) else old(Classification())
      ensures hotSegments == if id in segments then old(hotSegments) - {id} else old(hotSegments)
      ensures s == Ok ==> idleSet == old(idleSet) + {id} && id !in appendingSet && id !in fullSet && id !in fullOrder
      ensures NoDup(old(fullOrder)) ==> NoDup(fullOrder)
    {
      hide Consistent, NoDup;
      if id !in segments {
        return NotFound;
      }
      ReleasedKeeps(Classification(), segments.Keys, id);
      appendingSet := appendingSet - {id};
      fullSet := fullSet - {id};
      fullOrder := Without(fullOrder, id);
      hotSegments := hotSegments - {id};
      idleSet := idleSet + {id};
      s := Ok;
    }

    method PromoteIdleSegment() returns (seg: Segment?)
      requires Valid()
      modifies this`idleSet, this`appendingSet
      ensures Valid() && MemsNow() == old(MemsNow())
      ensures seg == null <==> old(idleSet) == {}
      ensures seg == null ==> Classification() == old(Classification())
      ensures seg != null ==> seg.id in old(idleSet) && segments[seg.id] == seg
      ensures seg != null ==> seg.id in appendingSet && idleSet == old(idleSet) - {seg.id}
      ensures seg != null ==> Classification() == Promoted(old(Classification()), seg.id)
    {
      hide Consistent;
      if idleSet == {} {
        return null;
      }
      var id :| id in idleSet;
      PromotedKeeps(Classification(), segments.Keys, id);
      idleSet := idleSet - {id};
      appendingSet := appendingSet + {id};
      assert id in segments.Keys;
      seg := segments[id];
    }

    /**
     * An appending segment that reports free slots, or else a promoted idle one.  Appending
     * segments found without free slots become full on the way.
     */
    method GetActiveSegment() returns (seg: Segment?)
      requires Valid()
      modifies this`idleSet, this`appendingSet, this`fullSet, this`fullOrder
      ensures Valid() && MemsNow() == old(MemsNow())
      ensures seg != null ==> seg.id in segments && segments[seg.id] == seg
      ensures Picked(old(Classification()), Classification(), MemsNow(), if seg == null then None else Some(seg.id))
      ensures seg == null <==> old(NoneFound(Classification(), MemsNow()))
      ensures old(fullSet) <= fullSet && old(fullOrder) <= fullOrder
      ensures NoDup(old(fullOrder)) ==> NoDup(fullOrder)
    {
      hide Consistent, NoDup, Partition;
      ghost var c := Classification();
      var todo := appendingSet;
      while todo != {}
        invariant Valid() && MemsNow() == old(MemsNow())
        invariant idleSet == old(idleSet) && appendingSet == todo <= old(appendingSet)
        invariant old(fullSet) <= fullSet && old(fullOrder) <= fullOrder
        invariant forall id :: id in c.appending && id !in todo ==> id in segments && FreeSlots(MemsNow()[id]) <= 0
        invariant NoDup(old(fullOrder)) ==> NoDup(fullOrder)
        decreases todo
      {
        var id :| id in todo;
        PartitionCovers(Classification(), segments.Keys, id);
        if segments[id].total - segments[id].cursor + segments[id].deleted > 0 {
          return segments[id];
        }
        var _ := MarkSegmentFull(id);
        todo := todo - {id};
      }
      assert appendingSet == {};
      seg := PromoteIdleSegment();
      if seg != null {
        PartitionCovers(c, segments.Keys, seg.id);
        PartitionCovers(Classification(), segments.Keys, seg.id);
      }
    }

    /** A change confined to one segment shows in the state of that segment only. */
    twostate lemma OneChanged(id: SegId)
      requires old(Valid()) && id in segments && segments == old(segments)
      requires Classification() == old(Classification())
      requires forall i :: i in segments && i != id ==> unchanged(segments[i])
      requires segments[id].Valid()
      ensures Valid() && MemsNow() == old(MemsNow())[id := segments[id].Mem()]
    {
      hide Consistent, Partition;
      assert forall i :: i in segments && i != id ==> segments[i].Mem() == old(MemsNow())[i];
    }

    ghost predicate AllMounted()
      reads this, segments.Values, disk
    {
      Store.Mounted(MemsNow(), disk.files)
    }

    lemma SegmentMounted(id: SegId)
      requires Valid() && AllMounted() && id in segments
      ensures segments[id].Mounted()
    {
      hide Consistent, Partition;
      assert id in MemsNow();
    }

    /** Inserts into one segment; the others keep their state. */
    method InsertInto(id: SegId, key: Bytes, value: Value) returns (s: Status, slot: nat)
      requires Valid() && AllMounted() && id in segments && |key| == disk.files.keySize
      modifies segments[id], disk
      ensures Valid() && AllMounted()
      ensures s == Ok || s == Status.Full || s == IOError
      ensures disk.faulted == (old(disk.faulted) || s == IOError) && disk.logFaulted == old(disk.logFaulted)
      ensures s == Status.Full <==> old(MemsNow())[id].cursor == old(MemsNow())[id].total
      ensures s == Status.Full ==> disk.files == old(disk.files) && disk.seen == old(disk.seen)
      ensures s == Ok ==> Filling(old(MemsNow()), old(disk.files), MemsNow(), disk.files, id, slot, Slot(key, value))
      ensures s != Ok ==> MemsNow() == old(MemsNow())
      ensures s != Status.Full ==>
                Touched(old(disk.files), disk.files, id, old(MemsNow())[id].cursor, old(MemsNow())[id].bitmap)
      ensures SeenTouched(old(disk.files), old(disk.seen), disk.seen, id,
                          old(MemsNow())[id].cursor, old(MemsNow())[id].bitmap)
      ensures old(disk.files) in old(disk.seen) ==> disk.files in disk.seen
    {
      hide Consistent, Touched, SeenTouched, Partition, Filled, Appended, Store.Mounted;
      ghost var mems, f := MemsNow(), disk.files;
      SegmentMounted(id);
      InRange(mems[id]);
      var seg := segments[id];
      s, slot := seg.Insert(key, value);
      OneChanged(id);
      if s == Status.Full {
        assert mems[id := mems[id]] == mems;
        return;
      }
      TouchedShape(f, disk.files, id, mems[id].cursor, mems[id].bitmap);
      MountedStep(mems, f, id, seg.Mem(), disk.files);
      if s != Ok {
        assert mems[id := mems[id]] == mems;
      }
    }

    /** Frees a slot of one segment; the others keep their state. */
    method DeleteFrom(id: SegId, i: nat) returns (s: Status)
      requires Valid() && AllMounted() && id in segments
      modifies segments[id], disk
      ensures Valid() && AllMounted()
      ensures s == Ok || s == InvalidArgument || s == NotFound || s == IOError
      ensures disk.faulted == (old(disk.faulted) || s == IOError)
      ensures disk.flushFaulted == (old(disk.flushFaulted) || s == IOError)
      ensures s == Ok || s == IOError <==> Occupied(old(MemsNow()), id, i)
      ensures s == Ok ==> MemsNow() == old(MemsNow())[id := Freed(old(MemsNow())[id], i)]
      ensures s == Ok ==> id in disk.files.segs && disk.files.segs[id].bitmap == MemsNow()[id].bitmap
      ensures s != Ok ==> MemsNow() == old(MemsNow())
      ensures s == InvalidArgument || s == NotFound ==> disk.files == old(disk.files) && disk.seen == old(disk.seen)
      ensures s == Ok || s == IOError ==> disk.files in disk.seen
      ensures s == Ok || s == IOError ==>
                BitmapTouched(old(disk.files), disk.files, id, Bitmap.Clear(old(MemsNow())[id].bitmap, i))
      ensures s == Ok || s == IOError ==>
                forall d :: d in disk.seen && d !in old(disk.seen) ==>
                  BitmapTouched(old(disk.files), d, id, Bitmap.Clear(old(MemsNow())[id].bitmap, i))
    {
      hide Touched, BitmapTouched, Partition, Bitmap.IsSet, Bitmap.Clear, Freed, Consistent, Store.Mounted;
      ghost var mems, f := MemsNow(), disk.files;
      SegmentMounted(id);
      var seg := segments[id];
      InRange(seg.Mem());
      if i < seg.total && Bitmap.IsSet(seg.bitmap, i) {
        FreedIsConsistent(seg.Mem(), i);
      }
      s := seg.Delete(i);
      OneChanged(id);
      if s == Ok || s == IOError {
        BitmapTouchedShape(f, disk.files, id, Bitmap.Clear(mems[id].bitmap, i));
        MountedStep(mems, f, id, seg.Mem(), disk.files);
      }
      if s != Ok {
        assert mems[id := mems[id]] == mems;
      }
    }

    /** Empties one segment; the others keep their state. */
    method RecycleSegment(id: SegId) returns (s: Status)
      requires Valid() && AllMounted() && id in segments
      modifies segments[id], disk
      ensures Valid() && AllMounted()
      ensures s == Ok || s == IOError
      ensures disk.faulted == (old(disk.faulted) || s == IOError) && disk.logFaulted == old(disk.logFaulted)
      ensures MemsNow() == old(MemsNow())[id := Emptied(old(MemsNow())[id])]
      ensures s == Ok ==> id in disk.files.segs && disk.files.segs[id].bitmap == MemsNow()[id].bitmap
      ensures BitmapTouched(old(disk.files), disk.files, id, MemsNow()[id].bitmap) && disk.files in disk.seen
      ensures forall d :: d in disk.seen ==>
                d in old(disk.seen) || BitmapTouched(old(disk.files), d, id, MemsNow()[id].bitmap)
    {
      hide Touched, BitmapTouched, Partition, Emptied, Consistent, Store.Mounted;
      ghost var mems, f := MemsNow(), disk.files;
      SegmentMounted(id);
      var seg := segments[id];
      s := seg.Recycle();
      OneChanged(id);
      BitmapTouchedShape(f, disk.files, id, seg.bitmap);
      MountedStep(mems, f, id, seg.Mem(), disk.files);
    }

    /** Opens, writes and syncs a temporary file and renames it; when anything fails the former file stays. */
    method SaveState(former: Option<Bytes>) returns (s: Status, file: Option<Bytes>)
      requires Valid() && |segments| < TWO_32 && |fullOrder| < TWO_32
      modifies disk`faulted
      ensures s == Ok || s == IOError
      ensures disk.faulted == (old(disk.faulted) || s == IOError)
      ensures s == Ok ==>
                file.Some? &&
                exists l :: SavedAs(Classification(), l) && file.value == StateFile.Encode(l) &&
                            StateFile.Parse(file.value) == Some(l)
      ensures s != Ok ==> file == former
    {
      hide Consistent, StateFile.Encode, StateFile.Parse, NoDup, Partition, SavedAs, Elems;
      var appending := Enumerate(appendingSet);
      var idle := Enumerate(idleSet);
      EnumerationsSave(Classification(), segments.Keys, appending, idle);
      var lists := StateFile.Lists(fullOrder, appending, idle);
      var b := StateFile.Encode(lists);
      StateFile.EncodeParses(lists, []);
      assert b + [] == b;
      assert SavedAs(Classification(), lists) && b == StateFile.Encode(lists) && StateFile.Parse(b) == Some(lists);
      s, file := Ok, former;
      for step := 0 to 4
        invariant s == Ok && disk.faulted == old(disk.faulted)
      {
        s := disk.Request();
        if s != Ok {
          return;
        }
      }
      file := Some(b);
    }

    method LoadFull(ids: StateFile.Ids)
      modifies this`fullSet, this`fullOrder
      ensures fullOrder == Kept(ids, segments.Keys) && fullSet == Elems(fullOrder)
    {
      fullSet, fullOrder := {}, [];
      var i := 0;
      while i < |ids|
        invariant 0 <= i <= |ids|
        invariant fullOrder == Kept(ids[..i], segments.Keys) && fullSet == Elems(fullOrder)
      {
        assert ids[..i + 1][..i] == ids[..i];
        if ids[i] < SEGMENT_UNIT && ids[i] in segments {
          fullSet := fullSet + {ids[i]};
          fullOrder := fullOrder + [ids[i]];
        }
        i := i + 1;
      }
      assert ids[..i] == ids;
    }

    /** The registered ids of a list that are not classified yet. */
    method LoadSet(ids: StateFile.Ids, classified: set<SegId>) returns (r: set<SegId>)
      ensures forall x :: x in r <==> x in segments && x in ids && x !in classified
    {
      r := {};
      var i := 0;
      while i < |ids|
        invariant 0 <= i <= |ids|
        invariant forall x :: x in r <==> x in segments && x in ids[..i] && x !in classified
      {
        assert ids[..i + 1] == ids[..i] + [ids[i]];
        if ids[i] < SEGMENT_UNIT && ids[i] in segments && ids[i] !in classified {
          r := r + {ids[i]};
        }
        i := i + 1;
      }
      assert ids[..i] == ids;
    }

    /** Segments the file does not mention are classified by their own state. */
    method ClassifyRest(classified: set<SegId>)
      requires Partition(Classification(), classified) && classified <= segments.Keys
      modifies this`idleSet, this`appendingSet, this`fullSet, this`fullOrder
      ensures Partition(Classification(), segments.Keys)
      ensures forall id :: id in segments && id !in classified ==> InClass(Classification(), id, segments[id].state)
      ensures old(idleSet) <= idleSet && old(appendingSet) <= appendingSet && old(fullSet) <= fullSet
      ensures old(fullOrder) <= fullOrder && NoDup(fullOrder[|old(fullOrder)|..])
      ensures forall x :: x in fullOrder[|old(fullOrder)|..] ==> x !in classified
    {
      hide NoDup;
      NoDupEmpty(fullOrder);
      var todo := segments.Keys - classified;
      while todo != {}
        invariant todo <= segments.Keys - classified
        invariant Partition(Classification(), segments.Keys - todo)
        invariant forall id :: id in segments && id !in classified && id !in todo ==>
                    InClass(Classification(), id, segments[id].state)
        invariant old(idleSet) <= idleSet && old(appendingSet) <= appendingSet && old(fullSet) <= fullSet
        invariant old(fullOrder) <= fullOrder && NoDup(fullOrder[|old(fullOrder)|..])
        invariant forall x :: x in fullOrder[|old(fullOrder)|..] ==> x !in classified && x !in todo
        decreases todo
      {
        var id :| id in todo;
        AddedKeeps(Classification(), segments.Keys - todo, id, segments[id].state);
        assert segments.Keys - todo + {id} == segments.Keys - (todo - {id});
        ghost var n, tail := |old(fullOrder)|, fullOrder[|old(fullOrder)|..];
        match segments[id].state {
          case Idle => idleSet := idleSet + {id};
          case Appending => appendingSet := appendingSet + {id};
          case Full =>
            fullSet := fullSet + {id};
            fullOrder := fullOrder + [id];
            assert fullOrder[n..] == tail + [id];
            NoDupSnoc(tail, id);
        }
        todo := todo - {id};
      }
    }

    method Reclassify(l: StateFile.Lists)
      modifies this`idleSet, this`appendingSet, this`fullSet, this`fullOrder
      ensures LoadedAs(Classification(), l, States())
    {
      hide NoDup, Kept, InClass, ClassOf, LoadedAs, Partition, Mentioned;
      idleSet, appendingSet := {}, {};
      LoadFull(l.full);
      appendingSet := LoadSet(l.appending, fullSet);
      idleSet := LoadSet(l.idle, fullSet + appendingSet);
      ghost var c := Classification();
      ListsPartition(c, l, segments.Keys);
      ClassifyRest(fullSet + appendingSet + idleSet);
      assert States().Keys == segments.Keys;
      RestIsLoaded(c, l, States(), Classification());
    }

    /**
     * Reclassifies the registered segments by a saved state.  A missing file, an unreadable one
     * and a rejected one change nothing; ids that are not registered are skipped.
     */
    method LoadState(file: Option<Bytes>) returns (s: Status)
      requires Valid()
      modifies this`idleSet, this`appendingSet, this`fullSet, this`fullOrder, disk`faulted
      ensures Valid() && MemsNow() == old(MemsNow())
      ensures s == Ok || Failure(s)
      ensures disk.faulted == (old(disk.faulted) || s == IOError)
      ensures file.None? ==> s == Ok
      ensures file.Some? && |file.value| < 8 ==> s != IOError
      ensures file.Some? && s != IOError ==> (s == Corruption <==> StateFile.Parse(file.value) == None)
      ensures file.None? || s != Ok ==> Classification() == old(Classification())
      ensures file.Some? && s == Ok ==> LoadedAs(Classification(), StateFile.Parse(file.value).value, States())
    {
      hide Consistent, StateFile.Parse, StateFile.Encode, LoadedAs, Partition;
      if file.None? {
        return Ok;
      }
      // A file too small for its header is rejected without opening it.
      if |file.value| >= 8 {
        s := disk.Request();
        if s != Ok {
          return;
        }
      }
      var parsed := StateFile.ReadLists(file.value);
      if parsed == None {
        return Corruption;
      }
      Reclassify(parsed.value);
      LoadedPartitions(Classification(), parsed.value, States());
      assert States().Keys == segments.Keys;
      s := Ok;
    }
  }

  /** What saving writes: an enumeration of each set, in whatever order it iterates. */
  method Enumerate(ids: set<SegId>) returns (r: seq<SegId>)
    ensures Elems(r) == ids && NoDup(r)
  {
    r := [];
    var todo := ids;
    while todo != {}
      invariant todo <= ids && Elems(r) == ids - todo && NoDup(r)
      decreases todo
    {
      var id :| id in todo;
      assert id !in Elems(r);
      assert Elems(r + [id]) == Elems(r) + {id};
      r := r + [id];
      todo := todo - {id};
    }
  }

  /** What the lists of a file alone classify. */
  ghost predicate FromLists(c: Classes, l: StateFile.Lists, ids: set<SegId>) {
    c.order == Kept(l.full, ids) && c.full == Elems(c.order) &&
    (forall x :: x in c.appending <==> x in ids && x in l.appending && x !in c.full) &&
    (forall x :: x in c.idle <==> x in ids && x in l.idle && x !in c.full + c.appending)
  }

  lemma ListsPartition(c: Classes, l: StateFile.Lists, ids: set<SegId>)
    requires FromLists(c, l, ids)
    ensures Partition(c, c.full + c.appending + c.idle) && c.full + c.appending + c.idle <= ids
    ensures forall x :: x in c.full + c.appending + c.idle <==> x in ids && Mentioned(l, x)
  {
  }

  lemma RestIsLoaded(c: Classes, l: StateFile.Lists, states: map<SegId, SegState>, c': Classes)
    requires FromLists(c, l, states.Keys) && Partition(c', states.Keys)
    requires c.idle <= c'.idle && c.appending <= c'.appending && c.full <= c'.full
    requires forall id :: id in states && id !in c.full + c.appending + c.idle ==> InClass(c', id, states[id])
    requires c.order <= c'.order && NoDup(c'.order[|c.order|..])
    requires forall x :: x in c'.order[|c.order|..] ==> x !in c.full + c.appending + c.idle
    ensures LoadedAs(c', l, states)
  {
    hide NoDup;
    ListsPartition(c, l, states.Keys);
    forall id | id in states
      ensures InClass(c', id, ClassOf(l, id, states[id]))
    {
    }
    forall x | x in c'.order[|c.order|..]
      ensures !Mentioned(l, x)
    {
      assert x in c'.order && x in Elems(c'.order);
    }
  }

  lemma LoadedPartitions(c: Classes, l: StateFile.Lists, states: map<SegId, SegState>)
    requires LoadedAs(c, l, states)
    ensures Partition(c, states.Keys)
  {
  }

  lemma NoDupEmpty(s: seq<SegId>)
    ensures NoDup(s[|s|..])
  {
  }

  lemma NoDupSnoc(s: seq<SegId>, id: SegId)
    requires NoDup(s) && id !in s
    ensures NoDup(s + [id])
  {
  }

  lemma {:induction false} EnumerationFits(s: seq<SegId>, ids: set<SegId>)
    requires NoDup(s) && Elems(s) <= ids
    ensures |s| <= |ids|
  {
    if s != [] {
      var n := |s| - 1;
      assert s == s[..n] + [s[n]];
      assert s[n] in Elems(s) && s[n] !in s[..n];
      assert Elems(s[..n]) <= ids - {s[n]};
      EnumerationFits(s[..n], ids - {s[n]});
    }
  }

  lemma EnumerationsSave(c: Classes, ids: set<SegId>, appending: seq<SegId>, idle: seq<SegId>)
    requires Partition(c, ids) && NoDup(appending) && NoDup(idle)
    requires Elems(appending) == c.appending && Elems(idle) == c.idle
    ensures SavedAs(c, StateFile.Lists(c.order, appending, idle))
    ensures |appending| <= |ids| && |idle| <= |ids|
  {
    hide NoDup;
    EnumerationFits(appending, ids);
    EnumerationFits(idle, ids);
    assert forall x :: x in appending <==> x in Elems(appending);
    assert forall x :: x in idle <==> x in Elems(idle);
  }

  lemma PartitionCovers(c: Classes, ids: set<SegId>, id: SegId)
    requires Partition(c, ids)
    ensures id in c.appending ==> id in ids && id !in c.full && id !in c.idle
    ensures id in c.idle ==> id in ids && id !in c.full && id !in c.appending
    ensures id in c.full ==> id in ids && id !in c.idle && id !in c.appending
  {
  }
}
