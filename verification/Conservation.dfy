/** Counting: the occupied slots of all segments are as many as the entries of the index. */
module Conservation {
  import opened Offset
  import opened WalCodec
  import opened Files
  import opened Segment
  import opened Store
  import Bitmap

  ghost function Pick(ids: set<SegId>): (id: SegId)
    requires ids != {}
    ensures id in ids
  {
    var x :| x in ids;
    x
  }

  ghost function TotalUsed(mems: Mems, ids: set<SegId>): nat
    requires ids <= mems.Keys
  {
    if ids == {} then 0 else mems[Pick(ids)].used + TotalUsed(mems, ids - {Pick(ids)})
  }

  lemma {:induction false} TotalUsedAdd(mems: Mems, ids: set<SegId>, x: SegId)
    requires ids <= mems.Keys && x in mems && x !in ids
    ensures TotalUsed(mems, ids + {x}) == TotalUsed(mems, ids) + mems[x].used
    decreases ids
  {
    var all := ids + {x};
    var p := Pick(all);
    if p == x {
      assert all - {p} == ids;
    } else {
      assert all - {p} == ids - {p} + {x} && ids - {p} + {p} == ids;
      TotalUsedAdd(mems, ids - {p}, x);
      TotalUsedAdd(mems, ids - {p}, p);
    }
  }

  lemma {:induction false} TotalUsedGrows(mems: Mems, ids: set<SegId>, more: set<SegId>)
    requires ids <= more <= mems.Keys
    ensures TotalUsed(mems, ids) <= TotalUsed(mems, more)
    decreases more - ids
  {
    if exists x :: x in more && x !in ids {
      var x :| x in more && x !in ids;
      TotalUsedAdd(mems, ids, x);
      TotalUsedGrows(mems, ids + {x}, more);
    } else {
      assert ids == more;
    }
  }

  lemma {:induction false} TotalUsedSame(mems: Mems, mems': Mems, ids: set<SegId>)
    requires ids <= mems.Keys && ids <= mems'.Keys && forall id :: id in ids ==> mems'[id].used == mems[id].used
    ensures TotalUsed(mems', ids) == TotalUsed(mems, ids)
    decreases ids
  {
    if ids != {} {
      TotalUsedSame(mems, mems', ids - {Pick(ids)});
    }
  }

  ghost function KeysBelow(t: Table, s: SegId, n: nat): set<Key> {
    set k | k in t && SegmentOf(t[k]) == s && SlotOf(t[k]) < n
  }

  ghost function KeysIn(t: Table, ids: set<SegId>): set<Key> {
    set k | k in t && SegmentOf(t[k]) in ids
  }

  /** Where the entries are. */
  lemma Located(t: Table, mems: Mems, f: Files)
    requires Inv(t, mems, f)
    ensures forall k :: k in t ==>
              SegmentOf(t[k]) in mems && SlotOf(t[k]) < mems[SegmentOf(t[k])].total &&
              Bitmap.IsSet(mems[SegmentOf(t[k])].bitmap, SlotOf(t[k]))
  {
    hide Bitmap.IsSet, SegmentOf, SlotOf, AllStored, Bitmap.Count;
    forall k | k in t
      ensures SegmentOf(t[k]) in mems && SlotOf(t[k]) < mems[SegmentOf(t[k])].total &&
              Bitmap.IsSet(mems[SegmentOf(t[k])].bitmap, SlotOf(t[k]))
    {
      assert Live(mems, t[k]);
      InRange(mems[SegmentOf(t[k])]);
    }
  }

  /** An occupied slot is the place of exactly one entry. */
  lemma KeyOfSlot(t: Table, mems: Mems, f: Files, s: SegId, n: SlotId) returns (key: Key)
    requires Inv(t, mems, f) && Conserved(t, mems, f) && s in mems && n < mems[s].total
    requires Bitmap.IsSet(mems[s].bitmap, n)
    ensures key in t && SegmentOf(t[key]) == s && SlotOf(t[key]) == n
    ensures forall k :: k in t && SegmentOf(t[k]) == s && SlotOf(t[k]) == n ==> k == key
  {
    hide Bitmap.IsSet, Store.Mounted, SegmentOf, SlotOf, EncodeSlot, Flag, Live;
    SlotRoundTrip(s, n);
    assert Owned(t, f, s, n);
    key := f.segs[s].slots[n].key;
    forall k | k in t && SegmentOf(t[k]) == s && SlotOf(t[k]) == n
      ensures k == key
    {
      assert Stored(f, k, t[k]);
    }
  }

  /** Each occupied slot adds exactly one key, each free one none. */
  lemma KeysOfSlot(t: Table, mems: Mems, f: Files, s: SegId, n: nat)
    requires Inv(t, mems, f) && Conserved(t, mems, f) && s in mems && n < mems[s].total <= SLOT_UNIT
    ensures |KeysBelow(t, s, n + 1)| == |KeysBelow(t, s, n)| + if Bitmap.IsSet(mems[s].bitmap, n) then 1 else 0
  {
    hide Bitmap.IsSet, Inv, ConservedBut, SegmentOf, SlotOf;
    Located(t, mems, f);
    if Bitmap.IsSet(mems[s].bitmap, n) {
      var key := KeyOfSlot(t, mems, f, s, n);
      assert KeysBelow(t, s, n + 1) == KeysBelow(t, s, n) + {key};
    } else {
      assert KeysBelow(t, s, n + 1) == KeysBelow(t, s, n);
    }
  }

  /** The keys stored below slot `n` are as many as the occupied slots below it. */
  lemma {:induction false} KeysAreSlots(t: Table, mems: Mems, f: Files, s: SegId, n: nat)
    requires Inv(t, mems, f) && Conserved(t, mems, f) && s in mems && n <= mems[s].total <= SLOT_UNIT
    ensures |KeysBelow(t, s, n)| == Bitmap.Count(mems[s].bitmap, n)
  {
    hide Bitmap.IsSet, Inv, ConservedBut, SegmentOf, SlotOf;
    if n == 0 {
      assert KeysBelow(t, s, 0) == {};
    } else {
      KeysAreSlots(t, mems, f, s, n - 1);
      KeysOfSlot(t, mems, f, s, n - 1);
    }
  }

  lemma SegmentCountsKeys(t: Table, mems: Mems, f: Files, s: SegId)
    requires Inv(t, mems, f) && Conserved(t, mems, f) && s in mems
    ensures |KeysIn(t, {s})| == mems[s].used
  {
    hide Bitmap.IsSet, SegmentOf, SlotOf, ConservedBut, AllStored, Live;
    assert Consistent(mems[s]);
    KeysAreSlots(t, mems, f, s, mems[s].total);
    Located(t, mems, f);
    assert KeysIn(t, {s}) == KeysBelow(t, s, mems[s].total);
  }

  lemma SplitKeys(t: Table, ids: set<SegId>, s: SegId)
    requires s in ids
    ensures |KeysIn(t, ids)| == |KeysIn(t, ids - {s})| + |KeysIn(t, {s})|
  {
    hide SegmentOf;
    assert KeysIn(t, ids) == KeysIn(t, ids - {s}) + KeysIn(t, {s});
    assert KeysIn(t, ids - {s}) !! KeysIn(t, {s});
  }

  lemma {:induction false} UsedCountsKeys(t: Table, mems: Mems, f: Files, ids: set<SegId>)
    requires Inv(t, mems, f) && Conserved(t, mems, f) && ids <= mems.Keys
    ensures TotalUsed(mems, ids) == |KeysIn(t, ids)|
  {
    hide Inv, ConservedBut, SegmentOf;
    if ids == {} {
      assert KeysIn(t, ids) == {};
    } else {
      var s := Pick(ids);
      UsedCountsKeys(t, mems, f, ids - {s});
      SegmentCountsKeys(t, mems, f, s);
      SplitKeys(t, ids, s);
    }
  }

  /** No slot is lost: what all segments hold is what the index holds. */
  lemma SlotsAreEntries(t: Table, mems: Mems, f: Files)
    requires Inv(t, mems, f) && Conserved(t, mems, f)
    ensures TotalUsed(mems, mems.Keys) == |t|
  {
    hide Inv, SegmentOf, SlotOf, ConservedBut, TotalUsed;
    UsedCountsKeys(t, mems, f, mems.Keys);
    Located(t, mems, f);
    assert KeysIn(t, mems.Keys) == t.Keys;
  }
}
