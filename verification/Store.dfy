/**
 * The invariant that ties the index table to the segments in memory and on disk, and the
 * effect of every slot-level step on it.
 */
module Store {
  import opened Base
  import opened Offset
  import opened WalCodec
  import opened Files
  import opened Disk
  import opened Segment
  import Bitmap

  type Mems = map<SegId, SegMem>

  /** Every segment is consistent and its file has the matching shape. */
  ghost predicate Mounted(mems: Mems, f: Files) {
    mems.Keys == f.segs.Keys &&
    forall s :: s in mems ==>
      Consistent(mems[s]) &&
      |f.segs[s].slots| == mems[s].total && |f.segs[s].bitmap| == |mems[s].bitmap| && Sized(f.segs[s], f.keySize)
  }

  lemma MountedStep(mems: Mems, f: Files, seg: SegId, m: SegMem, d: Files)
    requires Mounted(mems, f) && seg in mems && Consistent(m)
    requires m.total == mems[seg].total && |m.bitmap| == |mems[seg].bitmap| && SameShape(f, d)
    ensures Mounted(mems[seg := m], d)
  {
    hide Consistent;
  }

  /** `a` names a slot that is appended and occupied in memory. */
  ghost predicate Live(mems: Mems, a: U64) {
    SegmentOf(a) in mems && SlotOf(a) < mems[SegmentOf(a)].cursor &&
    Bitmap.IsSet(mems[SegmentOf(a)].bitmap, SlotOf(a))
  }

  /** Every entry names a slot, occupied in memory and on disk, that stores the same key. */
  ghost predicate Inv(t: Table, mems: Mems, f: Files) {
    Mounted(mems, f) && AllStored(t, f) &&
    (forall k :: k in t ==> Live(mems, t[k])) &&
    (forall k :: k in t ==> |k| == f.keySize)
  }

  lemma InvIsFormatted(t: Table, mems: Mems, f: Files)
    requires Inv(t, mems, f)
    ensures Formatted(f)
  {
    hide AllStored, Live, Bitmap.IsSet, Bitmap.Count, Sized;
  }

  /** Two keys never share a slot. */
  lemma SlotsAreExclusive(t: Table, f: Files, k: Key, k': Key)
    requires AllStored(t, f) && k in t && k' in t && t[k] == t[k']
    ensures k == k'
  {
    hide IsSlot, SegmentOf, SlotOf, Bitmap.IsSet;
    assert Stored(f, k, t[k]) && Stored(f, k', t[k']);
  }

  /** A step confined to one segment that spares the table keeps the invariant and the view. */
  lemma StepInSegment(t: Table, mems: Mems, f: Files, seg: SegId, m: SegMem, d: Files, i: nat, b: Bytes)
    requires Inv(t, mems, f) && seg in mems
    requires Consistent(m) && m.total == mems[seg].total && |m.bitmap| == |mems[seg].bitmap|
    requires Touched(f, d, seg, i, b) && Spares(t, seg, i, b)
    requires forall k :: k in t && SegmentOf(t[k]) == seg ==>
               SlotOf(t[k]) < m.cursor && Bitmap.IsSet(m.bitmap, SlotOf(t[k]))
    ensures Inv(t, mems[seg := m], d)
    ensures View(t, d) == View(t, f) && RecoveredTable(d) == RecoveredTable(f)
  {
    hide Consistent, Touched, Bitmap.IsSet, IsSlot, SegmentOf, SlotOf, RecoveredTable, View, Sized;
    TouchedIsHarmless(f, d, seg, i, b, t);
    TouchedShape(f, d, seg, i, b);
  }

  /** The slot at the cursor is unused by the table. */
  lemma CursorIsSpared(t: Table, mems: Mems, f: Files, seg: SegId)
    requires Inv(t, mems, f) && seg in mems
    ensures Spares(t, seg, mems[seg].cursor, mems[seg].bitmap)
    ensures forall k :: k in t && SegmentOf(t[k]) == seg ==> SlotOf(t[k]) < mems[seg].cursor
  {
    hide SegmentOf, SlotOf, Bitmap.IsSet, Consistent;
    assert forall k :: k in t ==> Live(mems, t[k]);
  }

  /** An append, finished or not, keeps the table and its view. */
  lemma AppendKeeps(t: Table, mems: Mems, f: Files, seg: SegId, d: Files)
    requires Inv(t, mems, f) && seg in mems && mems[seg].cursor < mems[seg].total
    requires Touched(f, d, seg, mems[seg].cursor, mems[seg].bitmap)
    ensures Inv(t, mems, d) && Inv(t, mems[seg := Appended(mems[seg])], d)
    ensures View(t, d) == View(t, f) && RecoveredTable(d) == RecoveredTable(f)
  {
    hide Touched, Bitmap.IsSet, SegmentOf, SlotOf, RecoveredTable, Spares, AllStored, View;
    var m := mems[seg];
    CursorIsSpared(t, mems, f, seg);
    AppendedIsConsistent(m);
    SparesIsOccupied(t, seg, m.cursor, m.bitmap);
    StepInSegment(t, mems, f, seg, Appended(m), d, m.cursor, m.bitmap);
    StepInSegment(t, mems, f, seg, m, d, m.cursor, m.bitmap);
    assert mems[seg := m] == mems;
  }

  lemma SparesIsOccupied(t: Table, seg: SegId, i: nat, b: Bytes)
    requires Spares(t, seg, i, b)
    ensures forall k :: k in t && SegmentOf(t[k]) == seg ==> SlotOf(t[k]) != i && Bitmap.IsSet(b, SlotOf(t[k]))
  {
  }

  /** Pointing a key at its freshly written slot is a map update. */
  lemma InstallNew(t: Table, mems: Mems, f: Files, seg: SegId, slot: nat, key: Key, value: Value)
    requires Inv(t, mems, f) && seg in mems && slot < mems[seg].cursor && |key| == f.keySize
    requires Bitmap.IsSet(mems[seg].bitmap, slot) && Bitmap.IsSet(f.segs[seg].bitmap, slot)
    requires slot < |f.segs[seg].slots| && f.segs[seg].slots[slot] == Slot(key, value)
    ensures slot < SLOT_UNIT
    ensures Inv(t[key := EncodeSlot(seg, slot)], mems, f)
    ensures View(t[key := EncodeSlot(seg, slot)], f) == View(t, f)[key := value]
  {
    assert Consistent(mems[seg]);
    var a := EncodeSlot(seg, slot);
    SlotRoundTrip(seg, slot);
    hide Consistent, Bitmap.IsSet, IsSlot, SegmentOf, SlotOf, EncodeSlot, Mounted;
    assert Stored(f, key, a) && Live(mems, a) && ValueAt(f, a) == value;
    InstallEntry(t, mems, f, key, a);
  }

  lemma InstallEntry(t: Table, mems: Mems, f: Files, key: Key, a: U64)
    requires Inv(t, mems, f) && |key| == f.keySize
    requires Stored(f, key, a) && Live(mems, a)
    ensures Inv(t[key := a], mems, f)
    ensures View(t[key := a], f) == View(t, f)[key := ValueAt(f, a)]
  {
    hide Mounted, Stored, Live, ValueAt;
  }

  lemma RemoveKey(t: Table, mems: Mems, f: Files, key: Key)
    requires Inv(t, mems, f)
    ensures Inv(t - {key}, mems, f)
    ensures View(t - {key}, f) == View(t, f) - {key}
  {
    hide Mounted, Stored, Live;
  }

  /** Freeing, completely or not, a slot that no entry names. */
  lemma FreeKeeps(t: Table, mems: Mems, f: Files, seg: SegId, i: nat, d: Files)
    requires Inv(t, mems, f) && seg in mems && i < mems[seg].total && Bitmap.IsSet(mems[seg].bitmap, i)
    requires i / 8 < |mems[seg].bitmap|
    requires BitmapTouched(f, d, seg, Bitmap.Clear(mems[seg].bitmap, i))
    requires forall k :: k in t && SegmentOf(t[k]) == seg ==> SlotOf(t[k]) != i
    ensures mems[seg].used > 0
    ensures Inv(t, mems, d) && Inv(t, mems[seg := Freed(mems[seg], i)], d)
    ensures View(t, d) == View(t, f) && RecoveredTable(d) == RecoveredTable(f)
  {
    hide Touched, Bitmap.IsSet, Bitmap.Clear, SegmentOf, SlotOf, RecoveredTable, AllStored, View, Consistent;
    var m := mems[seg];
    var b := Bitmap.Clear(m.bitmap, i);
    FreedIsConsistent(m, i);
    assert Touched(f, d, seg, i, b);
    CursorIsSpared(t, mems, f, seg);
    StepInSegment(t, mems, f, seg, Freed(m, i), d, i, b);
    StepInSegment(t, mems, f, seg, m, d, i, b);
    assert mems[seg := m] == mems;
  }

  /** Emptying a segment that no entry names. */
  lemma RecycleKeeps(t: Table, mems: Mems, f: Files, seg: SegId, d: Files)
    requires Inv(t, mems, f) && seg in mems
    requires BitmapTouched(f, d, seg, Emptied(mems[seg]).bitmap)
    requires forall k :: k in t ==> SegmentOf(t[k]) != seg
    ensures Inv(t, mems[seg := Emptied(mems[seg])], d)
    ensures View(t, d) == View(t, f) && RecoveredTable(d) == RecoveredTable(f)
  {
    hide Touched, Bitmap.IsSet, SegmentOf, SlotOf, RecoveredTable, AllStored, View, Consistent;
    EmptiedIsConsistent(mems[seg]);
    assert Touched(f, d, seg, 0, Emptied(mems[seg]).bitmap);
    StepInSegment(t, mems, f, seg, Emptied(mems[seg]), d, 0, Emptied(mems[seg]).bitmap);
  }

  /** The invariant reads segments only. */
  lemma InvSameSegs(t: Table, mems: Mems, f: Files, d: Files)
    requires Inv(t, mems, f) && d.segs == f.segs && d.keySize == f.keySize
    ensures Inv(t, mems, d) && View(t, d) == View(t, f)
  {
    hide Consistent, Bitmap.IsSet, IsSlot, SegmentOf, SlotOf;
    forall k | k in t
      ensures Stored(d, k, t[k]) && ValueAt(d, t[k]) == ValueAt(f, t[k])
    {
      assert Stored(f, k, t[k]);
    }
  }

  /** A mix of tables that all satisfy the invariant and stand for the same map does so, too. */
  lemma MixKeeps(r: Table, a: Table, b: Table, c: Table, mems: Mems, f: Files, v: map<Key, Value>)
    requires Inv(a, mems, f) && Inv(b, mems, f) && Inv(c, mems, f) && Mixes(r, a, b, c)
    requires View(a, f) == v && View(b, f) == v && View(c, f) == v
    ensures Inv(r, mems, f) && View(r, f) == v
  {
    hide Mounted, Stored, Live, ValueAt;
    forall k
      ensures k in r <==> k in v
      ensures k in r ==> Stored(f, k, r[k]) && Live(mems, r[k]) && |k| == f.keySize && ValueAt(f, r[k]) == v[k]
    {
      assert AgreeAt(r, a, k) || AgreeAt(r, b, k) || AgreeAt(r, c, k);
      assert (k in a <==> k in v) && (k in b <==> k in v) && (k in c <==> k in v);
    }
  }

  // ---------------------------------------------------------------- conservation of slots

  /** The key stored in slot `i` of `s` has its entry there. */
  ghost predicate Owned(t: Table, f: Files, s: SegId, i: SlotId) {
    s in f.segs && i < |f.segs[s].slots| &&
    f.segs[s].slots[i].key in t && t[f.segs[s].slots[i].key] == EncodeSlot(s, i)
  }

  /** Every occupied slot, except possibly the one at `leak`, belongs to an entry. */
  ghost predicate ConservedBut(t: Table, mems: Mems, f: Files, leak: Option<U64>) {
    forall s: SegId, i: SlotId :: s in mems && i < mems[s].total && Bitmap.IsSet(mems[s].bitmap, i) ==>
      leak == Some(EncodeSlot(s, i)) || Owned(t, f, s, i)
  }

  ghost predicate Conserved(t: Table, mems: Mems, f: Files) {
    ConservedBut(t, mems, f, None)
  }

  lemma ConservedSameSegs(t: Table, mems: Mems, f: Files, d: Files, leak: Option<U64>)
    requires ConservedBut(t, mems, f, leak) && d.segs == f.segs
    ensures ConservedBut(t, mems, d, leak)
  {
    hide Bitmap.IsSet, EncodeSlot;
    forall s: SegId, i: SlotId | s in mems && i < mems[s].total && Bitmap.IsSet(mems[s].bitmap, i)
      ensures leak == Some(EncodeSlot(s, i)) || Owned(t, d, s, i)
    {
      assert leak == Some(EncodeSlot(s, i)) || Owned(t, f, s, i);
    }
  }

  /** Installing a freshly filled slot can leak only the slot the key had before. */
  lemma ConservedFill(t: Table, mems: Mems, f: Files, id: SegId, key: Key, value: Value)
    requires Inv(t, mems, f) && Conserved(t, mems, f) && id in mems && mems[id].cursor < mems[id].total
    requires mems[id].cursor / 8 < |mems[id].bitmap|
    ensures id in f.segs && mems[id].cursor < |f.segs[id].slots| && mems[id].cursor < SLOT_UNIT
    ensures var slot := mems[id].cursor;
            var mems' := mems[id := Appended(mems[id])];
            ConservedBut(t[key := EncodeSlot(id, slot)], mems',
                         Filled(f, id, slot, Slot(key, value), mems'[id].bitmap),
                         if key in t then Some(t[key]) else None)
  {
    hide Bitmap.IsSet, Bitmap.Set, EncodeSlot, SegmentOf, SlotOf, IsSlot, AllStored, Live, Bitmap.Count;
    var slot := mems[id].cursor;
    InRange(mems[id]);
    hide Consistent;
    AppendedIsConsistent(mems[id]);
    var mems' := mems[id := Appended(mems[id])];
    var f' := Filled(f, id, slot, Slot(key, value), mems'[id].bitmap);
    var t' := t[key := EncodeSlot(id, slot)];
    forall s: SegId, i: SlotId | s in mems' && i < mems'[s].total && Bitmap.IsSet(mems'[s].bitmap, i)
      ensures (key in t && t[key] == EncodeSlot(s, i)) || Owned(t', f', s, i)
    {
      if s != id || i != slot {
        assert Bitmap.IsSet(mems[s].bitmap, i);
        OwnedBesides(t, f, id, slot, Slot(key, value), mems'[id].bitmap, s, i);
      }
    }
  }

  /** Filling one slot leaves every other one with its owner, unless that was the same key. */
  lemma OwnedBesides(t: Table, f: Files, id: SegId, slot: SlotId, c: Slot, b: Bytes, s: SegId, i: SlotId)
    requires id in f.segs && slot < |f.segs[id].slots| && Owned(t, f, s, i) && (s != id || i != slot)
    ensures (c.key in t && t[c.key] == EncodeSlot(s, i)) ||
            Owned(t[c.key := EncodeSlot(id, slot)], Filled(f, id, slot, c, b), s, i)
  {
    hide EncodeSlot;
  }

  /** Freeing the leaked slot restores conservation. */
  lemma ConservedFree(t: Table, mems: Mems, f: Files, a: U64, d: Files)
    requires Mounted(mems, f) && ConservedBut(t, mems, f, Some(a)) && IsSlot(a) && Live(mems, a)
    requires mems[SegmentOf(a)].used > 0 && SlotOf(a) / 8 < |mems[SegmentOf(a)].bitmap|
    requires SameSlots(f, d)
    ensures Conserved(t, mems[SegmentOf(a) := Freed(mems[SegmentOf(a)], SlotOf(a))], d)
  {
    var m := mems[SegmentOf(a)];
    FreedIsConsistent(m, SlotOf(a));
    var mems' := mems[SegmentOf(a) := Freed(m, SlotOf(a))];
    hide Bitmap.IsSet, Bitmap.Clear, EncodeSlot, SegmentOf, SlotOf, Flag, Consistent;
    forall s: SegId, i: SlotId | s in mems' && i < mems'[s].total && Bitmap.IsSet(mems'[s].bitmap, i)
      ensures Owned(t, d, s, i)
    {
      assert Bitmap.IsSet(mems[s].bitmap, i);
      if EncodeSlot(s, i) == a {
        SlotRoundTrip(s, i);
        assert false;
      }
      assert Owned(t, f, s, i);
    }
  }

  ghost predicate SameSlots(f: Files, d: Files) {
    d.segs.Keys == f.segs.Keys && forall s :: s in f.segs ==> d.segs[s].slots == f.segs[s].slots
  }

  /** As long as every entry stays stored, files may change otherwise. */
  lemma ConservedStored(t: Table, mems: Mems, f: Files, d: Files)
    requires Conserved(t, mems, f) && AllStored(t, d)
    ensures Conserved(t, mems, d)
  {
    hide Bitmap.IsSet, EncodeSlot, SegmentOf, SlotOf;
    forall s: SegId, i: SlotId | s in mems && i < mems[s].total && Bitmap.IsSet(mems[s].bitmap, i)
      ensures Owned(t, d, s, i)
    {
      assert Owned(t, f, s, i);
      var k := f.segs[s].slots[i].key;
      SlotRoundTrip(s, i);
      assert Stored(d, k, t[k]);
    }
  }

  /** Taking an update back leaves only its new slot without an entry. */
  lemma ConservedUndone(t: Table, mems: Mems, f: Files, key: Key, a: U64)
    requires AllStored(t, f)
    requires ConservedBut(t[key := a], mems, f, if key in t then Some(t[key]) else None)
    ensures ConservedBut(t, mems, f, Some(a))
  {
    hide Bitmap.IsSet, EncodeSlot, SegmentOf, SlotOf;
    forall s: SegId, i: SlotId | s in mems && i < mems[s].total && Bitmap.IsSet(mems[s].bitmap, i)
      ensures a == EncodeSlot(s, i) || Owned(t, f, s, i)
    {
      SlotRoundTrip(s, i);
      if key in t && t[key] == EncodeSlot(s, i) {
        assert Stored(f, key, t[key]);
      } else {
        assert Owned(t[key := a], f, s, i);
      }
    }
  }

  lemma ConservedRemove(t: Table, mems: Mems, f: Files, key: Key)
    requires Conserved(t, mems, f) && key in t
    ensures ConservedBut(t - {key}, mems, f, Some(t[key]))
  {
    hide Bitmap.IsSet, EncodeSlot;
    forall s: SegId, i: SlotId | s in mems && i < mems[s].total && Bitmap.IsSet(mems[s].bitmap, i)
      ensures t[key] == EncodeSlot(s, i) || Owned(t - {key}, f, s, i)
    {
      assert Owned(t, f, s, i);
    }
  }
}
