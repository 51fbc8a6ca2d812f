/** One segment: an append-only array of slots with an occupancy bitmap and counters. */
module Segment {
  import opened Base
  import opened Offset
  import opened WalCodec
  import opened Files
  import opened Disk
  import Bitmap

  datatype SegState = Idle | Appending | Full

  /** The in-memory half of a segment. */
  datatype SegMem = SegMem(total: nat, used: nat, deleted: nat, cursor: nat, bitmap: Bytes, state: SegState)

  function StateOf(used: nat, cursor: nat, total: nat): SegState {
    if used == 0 && cursor == 0 then SegState.Idle
    else if cursor >= total then SegState.Full
    else Appending
  }

  /** Counters, bitmap and state agree, and nothing is occupied at or past the cursor. */
  ghost predicate Consistent(m: SegMem) {
    m.total <= SLOT_UNIT && m.total <= 8 * |m.bitmap| &&
    m.cursor <= m.total && m.used + m.deleted == m.cursor &&
    Bitmap.Count(m.bitmap, m.total) == m.used &&
    (forall i :: m.cursor <= i < m.total ==> !Bitmap.IsSet(m.bitmap, i)) &&
    m.state == StateOf(m.used, m.cursor, m.total)
  }

  /** What the states mean: nothing appended, the last slot appended, or in between, whatever was deleted. */
  lemma StateMeans(m: SegMem)
    requires Consistent(m)
    ensures m.state == SegState.Idle <==> m.cursor == 0
    ensures m.state == SegState.Full <==> 0 < m.cursor == m.total
    ensures m.state == Appending <==> 0 < m.cursor < m.total
  {
    hide Bitmap.IsSet, Bitmap.Count;
  }

  function Appended(m: SegMem): SegMem
    requires m.cursor / 8 < |m.bitmap|
  {
    m.(used := m.used + 1, cursor := m.cursor + 1, bitmap := Bitmap.Set(m.bitmap, m.cursor),
       state := StateOf(m.used + 1, m.cursor + 1, m.total))
  }

  function Freed(m: SegMem, i: nat): SegMem
    requires i / 8 < |m.bitmap| && m.used > 0
  {
    m.(used := m.used - 1, deleted := m.deleted + 1, bitmap := Bitmap.Clear(m.bitmap, i),
       state := StateOf(m.used - 1, m.cursor, m.total))
  }

  function Emptied(m: SegMem): SegMem {
    m.(used := 0, deleted := 0, cursor := 0, bitmap := Bitmap.Empty(|m.bitmap|), state := SegState.Idle)
  }

  lemma AppendedIsConsistent(m: SegMem)
    requires Consistent(m) && m.cursor < m.total
    ensures Consistent(Appended(m))
    ensures forall i: nat :: Bitmap.IsSet(Appended(m).bitmap, i) <==> i == m.cursor || Bitmap.IsSet(m.bitmap, i)
  {
    hide Bitmap.IsSet, Bitmap.Set;
    Bitmap.CountSet(m.bitmap, m.cursor, m.total);
    forall i: nat
      ensures Bitmap.IsSet(Appended(m).bitmap, i) <==> i == m.cursor || Bitmap.IsSet(m.bitmap, i)
    {
      Bitmap.SetAt(m.bitmap, m.cursor, i);
    }
  }

  lemma {:induction false} OccupiedIsCounted(b: Bytes, i: nat, n: nat)
    requires i < n && Bitmap.IsSet(b, i)
    ensures Bitmap.Count(b, n) > 0
    decreases n
  {
    hide Bitmap.IsSet;
    if i < n - 1 {
      OccupiedIsCounted(b, i, n - 1);
    }
  }

  lemma FreedIsConsistent(m: SegMem, i: nat)
    requires Consistent(m) && i < m.total && Bitmap.IsSet(m.bitmap, i)
    ensures m.used > 0 && Consistent(Freed(m, i))
    ensures forall j: nat :: Bitmap.IsSet(Freed(m, i).bitmap, j) <==> j != i && Bitmap.IsSet(m.bitmap, j)
  {
    hide Bitmap.IsSet, Bitmap.Clear;
    OccupiedIsCounted(m.bitmap, i, m.total);
    Bitmap.CountClear(m.bitmap, i, m.total);
    forall j: nat
      ensures Bitmap.IsSet(Freed(m, i).bitmap, j) <==> j != i && Bitmap.IsSet(m.bitmap, j)
    {
      Bitmap.ClearAt(m.bitmap, i, j);
    }
  }

  lemma EmptiedIsConsistent(m: SegMem)
    requires Consistent(m)
    ensures Consistent(Emptied(m))
    ensures forall i: nat :: !Bitmap.IsSet(Emptied(m).bitmap, i)
  {
    hide Bitmap.IsSet, Bitmap.Empty;
    forall i: nat
      ensures !Bitmap.IsSet(Emptied(m).bitmap, i)
    {
      Bitmap.EmptyAt(|m.bitmap|, i);
    }
    Bitmap.CountNone(Emptied(m).bitmap, m.total);
  }

  /** One more than the last occupied slot below `n`, or zero. */
  function CoveringCursor(b: Bytes, n: nat): (c: nat)
    ensures c <= n
    ensures forall i :: c <= i < n ==> !Bitmap.IsSet(b, i)
    ensures c > 0 ==> Bitmap.IsSet(b, c - 1)
  {
    if n == 0 then 0 else if Bitmap.IsSet(b, n - 1) then n else CoveringCursor(b, n - 1)
  }

  /** What opening a segment file rebuilds from its bitmap. */
  function Rebuilt(total: nat, b: Bytes): (m: SegMem)
    ensures m.total == total && m.bitmap == b
  {
    var used, cursor := Bitmap.Count(b, total), CoveringCursor(b, total);
    SegMem(total, used, if used <= cursor then cursor - used else 0, cursor, b, StateOf(used, cursor, total))
  }

  /**
   * Reopening finds consistent counters with the same occupied slots, and the cursor is the
   * least that covers them, so a later insert cannot hit a live slot.
   */
  lemma RebuiltIsConsistent(total: nat, b: Bytes)
    requires total <= SLOT_UNIT && total <= 8 * |b|
    ensures Consistent(Rebuilt(total, b))
    ensures Bitmap.Count(b, total) <= Rebuilt(total, b).cursor
    ensures var c := Rebuilt(total, b).cursor; c > 0 ==> Bitmap.IsSet(b, c - 1)
  {
    hide Bitmap.IsSet;
    Bitmap.CountBeyond(b, CoveringCursor(b, total), total);
  }

  class Segment {
    const id: SegId
    const total: nat
    const disk: Disk
    var used: nat
    var deleted: nat
    var cursor: nat
    var bitmap: Bytes
    var state: SegState

    ghost function Mem(): SegMem
      reads this
    {
      SegMem(total, used, deleted, cursor, bitmap, state)
    }

    ghost predicate Valid()
      reads this
    {
      Consistent(Mem())
    }

    /** The file on disk has the shape this segment expects. */
    ghost predicate Mounted()
      reads this, disk
    {
      id in disk.files.segs &&
      |disk.files.segs[id].slots| == total && |disk.files.segs[id].bitmap| == |bitmap| &&
      Sized(disk.files.segs[id], disk.files.keySize)
    }

    constructor (id: SegId, disk: Disk, total: nat, bitmapSize: nat)
      requires total <= SLOT_UNIT && total <= 8 * bitmapSize
      ensures this.id == id && this.disk == disk && this.total == total
      ensures Valid() && |bitmap| == bitmapSize
    {
      this.id, this.disk, this.total := id, disk, total;
      used, deleted, cursor, state := 0, 0, 0, SegState.Idle;
      bitmap := Bitmap.Empty(bitmapSize);
      new;
      var n := bitmapSize;
      forall i: nat
        ensures !Bitmap.IsSet(bitmap, i)
      {
        Bitmap.EmptyAt(n, i);
      }
      Bitmap.CountNone(bitmap, total);
    }

    method UpdateState()
      modifies this`state
      ensures state == StateOf(used, cursor, total)
    {
      if used == 0 && cursor == 0 {
        state := SegState.Idle;
      } else if cursor >= total {
        state := SegState.Full;
      } else {
        state := Appending;
      }
    }

    method Open() returns (s: Status)
      requires Valid() && Mounted()
      modifies this, disk`faulted
      ensures s == Ok || Failure(s)
      ensures disk.faulted == (old(disk.faulted) || Failure(s))
      ensures s == Ok ==> Mem() == Rebuilt(total, disk.files.segs[id].bitmap) && Valid()
      ensures s != Ok ==> Mem() == old(Mem())
    {
      hide Bitmap.IsSet, Consistent;
      InRange(Mem());
      var b;
      s, b := disk.ReadBitmap(id);
      if s != Ok {
        return;
      }
      bitmap := b;
      used, cursor := 0, 0;
      var i := 0;
      while i < total
        invariant 0 <= i <= total
        invariant used == Bitmap.Count(bitmap, i) && cursor == CoveringCursor(bitmap, i)
        invariant bitmap == disk.files.segs[id].bitmap
        modifies this`used, this`cursor
      {
        if Bitmap.IsSet(bitmap, i) {
          used := used + 1;
          cursor := i + 1;
        }
        i := i + 1;
      }
      RebuiltIsConsistent(total, bitmap);
      deleted := cursor - used;
      UpdateState();
    }

    /** Writes key, then value: the order of the slot layout. */
    method WriteItem(i: nat, c: Slot) returns (s: Status)
      requires Mounted() && i < total && |c.key| == disk.files.keySize
      modifies disk
      ensures Mounted() && disk.files.keySize == old(disk.files).keySize
      ensures s == Ok || s == IOError
      ensures disk.faulted == (old(disk.faulted) || s == IOError) && disk.logFaulted == old(disk.logFaulted)
      ensures disk.flushFaulted == old(disk.flushFaulted)
      ensures s == Ok ==> disk.files == WithSlot(old(disk.files), id, i, c)
      ensures SlotTouched(old(disk.files), disk.files, id, i)
      ensures disk.files in disk.seen
      ensures forall d :: d in disk.seen ==> d in old(disk.seen) || SlotTouched(old(disk.files), d, id, i)
    {
      hide Touched, SlotTouched;
      ghost var f := disk.files;
      s := disk.WriteSlot(id, i, Slot(c.key, disk.files.segs[id].slots[i].value));
      SlotTouchedShape(f, disk.files, id, i);
      if s == Ok {
        ghost var g := disk.files;
        s := disk.WriteSlot(id, i, c);
        SlotTouchedAgain(f, g, disk.files, id, i);
        SlotTouchedShape(g, disk.files, id, i);
        SlotRewritten(f, id, i, Slot(c.key, f.segs[id].slots[i].value), c);
        forall d | d in disk.seen && SlotTouched(g, d, id, i)
          ensures SlotTouched(f, d, id, i)
        {
          SlotTouchedAgain(f, g, d, id, i);
        }
      }
    }

    method Insert(key: Key, value: Value) returns (s: Status, slot: nat)
      requires Valid() && Mounted() && |key| == disk.files.keySize
      modifies this, disk
      ensures Valid() && Mounted()
      ensures s == Ok || s == Status.Full || s == IOError
      ensures disk.faulted == (old(disk.faulted) || s == IOError) && disk.logFaulted == old(disk.logFaulted)
      ensures s == Status.Full <==> old(cursor) == total
      ensures s == Status.Full <==> old(state) == SegState.Full || total == 0
      ensures s == Status.Full ==> disk.files == old(disk.files) && disk.seen == old(disk.seen)
      ensures s == Ok ==> slot == old(cursor) < total && Mem() == Appended(old(Mem()))
      ensures s == Ok ==> disk.files == Filled(old(disk.files), id, slot, Slot(key, value), bitmap)
      ensures s != Ok ==> Mem() == old(Mem())
      ensures s != Status.Full ==> Touched(old(disk.files), disk.files, id, old(cursor), old(bitmap))
      ensures old(disk.files) in old(disk.seen) ==> disk.files in disk.seen
      ensures SeenTouched(old(disk.files), old(disk.seen), disk.seen, id, old(cursor), old(bitmap))
    {
      hide Consistent, Touched, SlotTouched, BitmapTouched, Bitmap.IsSet, Bitmap.Set, Bitmap.Clear, Bitmap.Count,
           WithSlot, WithBitmap, Filled;
      slot := 0;
      InRange(Mem());
      StateMeans(Mem());
      if cursor >= total {
        s := Status.Full;
        return;
      }
      AppendedIsConsistent(Mem());
      ghost var f, b, seen0 := disk.files, bitmap, disk.seen;
      s := WriteItem(cursor, Slot(key, value));
      ghost var f1, seen1 := disk.files, disk.seen;
      SlotStep(f, f1, seen0, seen1, id, cursor, b);
      if s != Ok {
        return;
      }
      bitmap := Bitmap.Set(bitmap, cursor);
      s := disk.WriteBitmap(id, bitmap);
      BitmapStep(f, f1, disk.files, seen0, seen1, disk.seen, id, cursor, b, bitmap);
      if s != Ok {
        Bitmap.Undo(b, cursor);
        bitmap := Bitmap.Clear(bitmap, cursor);
        return;
      }
      FilledBySteps(f, id, cursor, Slot(key, value), bitmap);
      used := used + 1;
      slot := cursor;
      cursor := cursor + 1;
      UpdateState();
    }

    /** Reads key and value of an occupied slot. */
    method Read(i: nat) returns (s: Status, c: Slot)
      requires Valid() && Mounted()
      modifies disk`faulted
      ensures s == InvalidArgument <==> i >= total
      ensures s == NotFound <==> i < total && !Bitmap.IsSet(bitmap, i)
      ensures s == Ok || s == InvalidArgument || s == NotFound || Failure(s)
      ensures s == Ok ==> c == disk.files.segs[id].slots[i]
      ensures disk.faulted == (old(disk.faulted) || Failure(s))
    {
      c := Slot([], []);
      if i >= total {
        s := InvalidArgument;
      } else if !Bitmap.IsSet(bitmap, i) {
        s := NotFound;
      } else {
        s, c := disk.ReadSlot(id, i);
      }
    }

    method Delete(i: nat) returns (s: Status)
      requires Valid() && Mounted()
      modifies this, disk
      ensures Valid() && Mounted()
      ensures s == InvalidArgument <==> i >= total
      ensures s == NotFound <==> i < total && !Bitmap.IsSet(old(bitmap), i)
      ensures s == Ok || s == InvalidArgument || s == NotFound || s == IOError
      ensures disk.faulted == (old(disk.faulted) || s == IOError)
      ensures disk.flushFaulted == (old(disk.flushFaulted) || s == IOError)
      ensures s == Ok ==> old(used) > 0 && Mem() == Freed(old(Mem()), i)
      ensures s == Ok ==> disk.files == WithBitmap(old(disk.files), id, bitmap)
      ensures s != Ok ==> Mem() == old(Mem())
      ensures s == InvalidArgument || s == NotFound ==> disk.files == old(disk.files) && disk.seen == old(disk.seen)
      ensures s == Ok || s == IOError ==>
                i / 8 < |old(bitmap)| &&
                BitmapTouched(old(disk.files), disk.files, id, Bitmap.Clear(old(bitmap), i)) &&
                disk.files in disk.seen &&
                forall d :: d in disk.seen ==>
                  d in old(disk.seen) || BitmapTouched(old(disk.files), d, id, Bitmap.Clear(old(bitmap), i))
    {
      hide Consistent, Touched, BitmapTouched, Bitmap.IsSet, Bitmap.Set, Bitmap.Clear, Bitmap.Count;
      InRange(Mem());
      if i >= total {
        s := InvalidArgument;
        return;
      }
      if !Bitmap.IsSet(bitmap, i) {
        s := NotFound;
        return;
      }
      FreedIsConsistent(Mem(), i);
      Bitmap.Undo(bitmap, i);
      bitmap := Bitmap.Clear(bitmap, i);
      s := disk.WriteBitmap(id, bitmap);
      BitmapTouchedShape(old(disk.files), disk.files, id, bitmap);
      if s != Ok {
        bitmap := Bitmap.Set(bitmap, i);
        return;
      }
      used := used - 1;
      deleted := deleted + 1;
      UpdateState();
    }

    /** The last step of a compaction: all slots become free again. */
    method Recycle() returns (s: Status)
      requires Valid() && Mounted()
      modifies this, disk
      ensures Valid() && Mounted()
      ensures s == Ok || s == IOError
      ensures disk.faulted == (old(disk.faulted) || s == IOError) && disk.logFaulted == old(disk.logFaulted)
      ensures Mem() == Emptied(old(Mem()))
      ensures s == Ok ==> disk.files == WithBitmap(old(disk.files), id, bitmap)
      ensures BitmapTouched(old(disk.files), disk.files, id, bitmap) && disk.files in disk.seen
      ensures forall d :: d in disk.seen ==>
                d in old(disk.seen) || BitmapTouched(old(disk.files), d, id, bitmap)
    {
      hide Consistent, Touched, BitmapTouched, Bitmap.IsSet, Bitmap.Empty, Bitmap.Count;
      EmptiedIsConsistent(Mem());
      bitmap := Bitmap.Empty(|bitmap|);
      used, deleted, cursor, state := 0, 0, 0, SegState.Idle;
      s := disk.WriteBitmap(id, bitmap);
      BitmapTouchedShape(old(disk.files), disk.files, id, bitmap);
    }

    method WriteItems(first: nat, items: seq<Slot>) returns (s: Status)
      requires Mounted() && first + |items| <= total
      requires forall i :: 0 <= i < |items| ==> |items[i].key| == disk.files.keySize
      modifies disk
      ensures Mounted()
      ensures s == Ok || s == IOError
      ensures disk.faulted == (old(disk.faulted) || s == IOError) && disk.flushFaulted == old(disk.flushFaulted)
      ensures s == Ok ==> disk.files.segs[id].slots == Spliced(old(disk.files.segs[id].slots), first, items)
      ensures RangeTouched(old(disk.files), disk.files, id, first, |items|)
      ensures forall d :: d in disk.seen ==> d in old(disk.seen) || RangeTouched(old(disk.files), d, id, first, |items|)
    {
      hide SlotTouched, RangeTouched;
      ghost var slots, f := disk.files.segs[id].slots, disk.files;
      NothingTouched(f, id, first, |items|);
      var i := 0;
      s := Ok;
      while i < |items|
        invariant 0 <= i <= |items| && Mounted() && s == Ok && disk.files.keySize == old(disk.files).keySize
        invariant disk.files.segs[id].slots == Spliced(slots, first, items[..i])
        invariant disk.faulted == old(disk.faulted) && disk.flushFaulted == old(disk.flushFaulted)
        invariant RangeTouched(f, disk.files, id, first, |items|)
        invariant forall d :: d in disk.seen ==> d in old(disk.seen) || RangeTouched(f, d, id, first, |items|)
      {
        ghost var g, seen := disk.files, disk.seen;
        s := WriteItem(first + i, items[i]);
        forall d | SlotTouched(g, d, id, first + i)
          ensures RangeTouched(f, d, id, first, |items|)
        {
          RangeTouchedAgain(f, g, d, id, first, |items|, first + i);
        }
        if s != Ok {
          return;
        }
        SplicedNext(slots, first, items, i);
        i := i + 1;
      }
      assert items[..i] == items;
    }

    method SetBits(n: nat)
      requires cursor + n <= total <= 8 * |bitmap|
      modifies this`bitmap
      ensures bitmap == AppendedMany(old(Mem()), n).bitmap
    {
      hide Bitmap.Set;
      ghost var m := Mem();
      var i := 0;
      while i < n
        invariant 0 <= i <= n && bitmap == AppendedMany(m, i).bitmap
      {
        bitmap := Bitmap.Set(bitmap, cursor + i);
        i := i + 1;
      }
    }

    /**
     * Writes all payloads, then commits them with one bitmap flush.  When that flush fails
     * the bits stay set although the counters were not advanced.
     */
    method BatchInsert(items: seq<Slot>) returns (s: Status, first: nat)
      requires Valid() && Mounted()
      requires forall i :: 0 <= i < |items| ==> |items[i].key| == disk.files.keySize
      modifies this, disk
      ensures Mounted()
      ensures s == Ok || s == InvalidArgument || s == Status.Full || s == IOError
      ensures s == InvalidArgument <==> items == []
      ensures s == Status.Full <==> items != [] && |items| > total - old(cursor)
      ensures s == Ok ==> Valid() && first == old(cursor) && Mem() == AppendedMany(old(Mem()), |items|)
      ensures s == Ok ==> disk.files.segs[id].bitmap == bitmap
      ensures s == Ok ==> disk.files.segs[id].slots == Spliced(old(disk.files.segs[id].slots), first, items)
      ensures s != Ok && Valid() ==> Mem() == old(Mem())
      ensures !Valid() ==> s == IOError && Mem() == old(Mem()).(bitmap := bitmap)
      ensures !Valid() ==> OccupiedBy(bitmap, old(bitmap), old(cursor), |items|)
      ensures disk.faulted == (old(disk.faulted) || s == IOError)
      ensures disk.flushFaulted ==> old(disk.flushFaulted) || s == IOError
      ensures disk.flushFaulted && !old(disk.flushFaulted) ==>
                OccupiedBy(bitmap, old(bitmap), old(cursor), |items|)
      // A crash at any point leaves every slot below the cursor as it was, and occupied if it was.
      ensures forall d :: d in disk.seen ==>
                d in old(disk.seen) || BatchTouched(old(disk.files), d, id, old(cursor), |items|, old(bitmap))
    {
      hide Consistent, Touched, SlotTouched, BitmapTouched, Bitmap.IsSet, Bitmap.Set, Bitmap.Count, Spliced,
           OccupiedBy, AppendedMany, RangeTouched, BatchTouched;
      first := cursor;
      ghost var b0, f0 := bitmap, disk.files;
      InRange(Mem());
      if items == [] {
        s := InvalidArgument;
        return;
      }
      if |items| > total - cursor {
        s := Status.Full;
        return;
      }
      s := WriteItems(first, items);
      forall d | RangeTouched(f0, d, id, first, |items|)
        ensures BatchTouched(f0, d, id, first, |items|, b0)
      {
        RangeIsBatch(f0, d, id, first, |items|, b0);
      }
      if s != Ok {
        return;
      }
      ghost var m := Mem();
      SetBits(|items|);
      AppendedManyIsConsistent(m, |items|);
      ghost var f := disk.files;
      s := disk.WriteBitmap(id, bitmap);
      BitmapTouchedShape(f, disk.files, id, bitmap);
      OccupiedKeeps(bitmap, m.bitmap, m.cursor, |items|);
      forall d | BitmapTouched(f, d, id, bitmap)
        ensures BatchTouched(f0, d, id, first, |items|, b0)
      {
        BatchFlushed(f0, f, d, id, first, |items|, b0, bitmap);
      }
      if s != Ok {
        return;
      }
      used := used + |items|;
      cursor := cursor + |items|;
      UpdateState();
    }
  }

  /** The files after a complete append. */
  function Filled(f: Files, seg: SegId, i: nat, c: Slot, b: Bytes): Files
    requires seg in f.segs && i < |f.segs[seg].slots|
  {
    f.(segs := f.segs[seg := SegFile(b, f.segs[seg].slots[i := c])])
  }

  lemma FilledBySteps(f: Files, seg: SegId, i: nat, c: Slot, b: Bytes)
    requires seg in f.segs && i < |f.segs[seg].slots|
    ensures WithBitmap(WithSlot(f, seg, i, c), seg, b) == Filled(f, seg, i, c, b)
  {
    var x := SegFile(f.segs[seg].bitmap, f.segs[seg].slots[i := c]);
    assert f.segs[seg := x][seg := x.(bitmap := b)] == f.segs[seg := x.(bitmap := b)];
  }

  ghost predicate SeenTouched(f: Files, seen0: iset<Files>, seen: iset<Files>, seg: SegId, i: nat, b: Bytes) {
    forall d :: d in seen ==> d in seen0 || Touched(f, d, seg, i, b)
  }

  /** `d` differs from `f` in `n` slots of one segment at most, from `first` on. */
  ghost predicate RangeTouched(f: Files, d: Files, seg: SegId, first: nat, n: nat) {
    seg in f.segs && SameShape(f, d) && d == f.(segs := f.segs[seg := d.segs[seg]]) &&
    (forall j: nat :: Bitmap.IsSet(f.segs[seg].bitmap, j) ==> Bitmap.IsSet(d.segs[seg].bitmap, j)) &&
    forall j :: 0 <= j < |f.segs[seg].slots| && !(first <= j < first + n) ==>
      d.segs[seg].slots[j] == f.segs[seg].slots[j]
  }

  /** As `RangeTouched`, and the bitmap may be on its way to another one that keeps the bits of `b`. */
  ghost predicate BatchTouched(f: Files, d: Files, seg: SegId, first: nat, n: nat, b: Bytes) {
    seg in f.segs && SameShape(f, d) && d == f.(segs := f.segs[seg := d.segs[seg]]) &&
    (forall j :: 0 <= j < |f.segs[seg].slots| && !(first <= j < first + n) ==>
       d.segs[seg].slots[j] == f.segs[seg].slots[j]) &&
    (forall j: nat :: Bitmap.IsSet(f.segs[seg].bitmap, j) && Bitmap.IsSet(b, j) ==> Bitmap.IsSet(d.segs[seg].bitmap, j))
  }

  lemma OccupiedKeeps(b': Bytes, b: Bytes, first: nat, n: nat)
    requires OccupiedBy(b', b, first, n)
    ensures forall j: nat :: Bitmap.IsSet(b, j) ==> Bitmap.IsSet(b', j)
  {
    hide Bitmap.IsSet;
  }

  lemma NothingTouched(f: Files, seg: SegId, first: nat, n: nat)
    requires seg in f.segs
    ensures RangeTouched(f, f, seg, first, n)
  {
  }

  lemma RangeTouchedAgain(f: Files, g: Files, d: Files, seg: SegId, first: nat, n: nat, i: nat)
    requires RangeTouched(f, g, seg, first, n) && SlotTouched(g, d, seg, i) && first <= i < first + n
    ensures RangeTouched(f, d, seg, first, n)
  {
    assert Touched(g, d, seg, i, g.segs[seg].bitmap);
    TouchedShape(g, d, seg, i, g.segs[seg].bitmap);
    hide SlotTouched, Bitmap.IsSet, Sized;
  }

  lemma RangeIsBatch(f: Files, d: Files, seg: SegId, first: nat, n: nat, b: Bytes)
    requires RangeTouched(f, d, seg, first, n)
    ensures BatchTouched(f, d, seg, first, n, b)
  {
    hide Bitmap.IsSet;
  }

  lemma BatchFlushed(f: Files, g: Files, d: Files, seg: SegId, first: nat, n: nat, b: Bytes, b': Bytes)
    requires RangeTouched(f, g, seg, first, n) && BitmapTouched(g, d, seg, b')
    requires forall j: nat :: Bitmap.IsSet(b, j) ==> Bitmap.IsSet(b', j)
    ensures BatchTouched(f, d, seg, first, n, b)
  {
    BitmapTouchedShape(g, d, seg, b');
    assert Touched(g, d, seg, 0, b');
    hide Bitmap.IsSet, BitmapTouched;
  }

  /** A batch in any state spares the slots behind which it writes. */
  lemma BatchIsHarmless(f: Files, d: Files, seg: SegId, first: nat, n: nat, b: Bytes, t: Table)
    requires AllStored(t, f) && BatchTouched(f, d, seg, first, n, b)
    requires forall k :: k in t && SegmentOf(t[k]) == seg ==> SlotOf(t[k]) < first && Bitmap.IsSet(b, SlotOf(t[k]))
    ensures AllStored(t, d) && View(t, d) == View(t, f) && RecoveredTable(d) == RecoveredTable(f)
  {
    hide Bitmap.IsSet, Flag, SegmentOf, SlotOf, EncodeSlot, IsSlot;
    forall k | k in t
      ensures Stored(d, k, t[k]) && ValueAt(d, t[k]) == ValueAt(f, t[k])
    {
      assert Stored(f, k, t[k]);
    }
  }

  lemma SlotTouchedAgain(f: Files, g: Files, h: Files, seg: SegId, i: nat)
    requires SlotTouched(f, g, seg, i) && SlotTouched(g, h, seg, i)
    ensures SlotTouched(f, h, seg, i)
  {
    hide Touched;
    forall b
      ensures Touched(f, h, seg, i, b)
    {
      TouchedAgain(f, g, h, seg, i, b);
    }
  }

  lemma SlotStep(f: Files, g: Files, seen0: iset<Files>, seen1: iset<Files>, seg: SegId, i: nat, b: Bytes)
    requires SlotTouched(f, g, seg, i)
    requires forall d :: d in seen1 ==> d in seen0 || SlotTouched(f, d, seg, i)
    ensures Touched(f, g, seg, i, b) && SeenTouched(f, seen0, seen1, seg, i, b)
    ensures SameShape(f, g)
  {
    hide Touched;
    TouchedShape(f, g, seg, i, b);
  }

  lemma BitmapStep(f: Files, g: Files, h: Files, seen0: iset<Files>, seen1: iset<Files>, seen2: iset<Files>,
                   seg: SegId, i: nat, b: Bytes, goal: Bytes)
    requires Touched(f, g, seg, i, b) && SeenTouched(f, seen0, seen1, seg, i, b)
    requires forall j: nat :: Bitmap.IsSet(b, j) ==> Bitmap.IsSet(goal, j)
    requires BitmapTouched(g, h, seg, goal)
    requires forall d :: d in seen2 ==> d in seen1 || BitmapTouched(g, d, seg, goal)
    ensures Touched(f, h, seg, i, b) && SeenTouched(f, seen0, seen2, seg, i, b)
    ensures SameShape(f, h)
  {
    TouchedShape(f, g, seg, i, b);
    hide Touched, Bitmap.IsSet;
    TouchedLess(g, h, seg, i, goal, b);
    TouchedAgain(f, g, h, seg, i, b);
    TouchedShape(f, h, seg, i, b);
    forall d | d in seen2
      ensures d in seen0 || Touched(f, d, seg, i, b)
    {
      if d !in seen1 {
        TouchedLess(g, d, seg, i, goal, b);
        TouchedAgain(f, g, d, seg, i, b);
      }
    }
  }

  function Spliced(slots: seq<Slot>, first: nat, items: seq<Slot>): (r: seq<Slot>)
    requires first + |items| <= |slots|
    ensures |r| == |slots|
  {
    slots[..first] + items + slots[first + |items|..]
  }

  lemma SplicedNext(slots: seq<Slot>, first: nat, items: seq<Slot>, i: nat)
    requires first + |items| <= |slots| && i < |items|
    ensures Spliced(slots, first, items[..i])[first + i := items[i]] == Spliced(slots, first, items[..i + 1])
  {
    assert items[..i + 1] == items[..i] + [items[i]];
  }

  ghost predicate OccupiedBy(after: Bytes, before: Bytes, first: nat, n: nat) {
    forall j: nat :: Bitmap.IsSet(after, j) <==> first <= j < first + n || Bitmap.IsSet(before, j)
  }

  /** `n` appends in a row. */
  function AppendedMany(m: SegMem, n: nat): (r: SegMem)
    requires m.cursor + n <= m.total <= 8 * |m.bitmap|
    ensures r.total == m.total && r.cursor == m.cursor + n && r.used == m.used + n && r.deleted == m.deleted
    ensures |r.bitmap| == |m.bitmap| && (n > 0 ==> r.state == StateOf(r.used, r.cursor, r.total))
  {
    if n == 0 then m else Appended(AppendedMany(m, n - 1))
  }

  lemma {:induction false} AppendedManyIsConsistent(m: SegMem, n: nat)
    requires Consistent(m) && m.cursor + n <= m.total
    ensures Consistent(AppendedMany(m, n))
    ensures OccupiedBy(AppendedMany(m, n).bitmap, m.bitmap, m.cursor, n)
    ensures n > 0 ==> !Consistent(m.(bitmap := AppendedMany(m, n).bitmap))
    decreases n
  {
    hide Bitmap.IsSet, Appended;
    if n > 0 {
      AppendedManyIsConsistent(m, n - 1);
      AppendedIsConsistent(AppendedMany(m, n - 1));
      assert Bitmap.IsSet(AppendedMany(m, n).bitmap, m.cursor);
    }
  }

  lemma SlotTouchedShape(f: Files, d: Files, seg: SegId, i: nat)
    requires SlotTouched(f, d, seg, i)
    ensures SameShape(f, d) && d.keySize == f.keySize
  {
    TouchedShape(f, d, seg, i, []);
  }

  lemma BitmapTouchedShape(f: Files, d: Files, seg: SegId, b: Bytes)
    requires BitmapTouched(f, d, seg, b)
    ensures SameShape(f, d) && seg in f.segs
    ensures d.segs[seg].slots == f.segs[seg].slots
    ensures forall s :: s in f.segs && s != seg ==> d.segs[s] == f.segs[s]
    ensures d.keySize == f.keySize && d.snapshot == f.snapshot && d.wal == f.wal
  {
    TouchedShape(f, d, seg, 0, b);
    assert Touched(f, d, seg, 0, b) && Touched(f, d, seg, 1, b);
  }

  lemma InRange(m: SegMem)
    requires Consistent(m)
    ensures m.cursor <= m.total <= 8 * |m.bitmap| && m.total <= SLOT_UNIT
    ensures m.cursor < m.total ==> m.cursor / 8 < |m.bitmap| && !Bitmap.IsSet(m.bitmap, m.cursor)
  {
  }

  ghost predicate SameShape(f: Files, d: Files) {
    d.segs.Keys == f.segs.Keys && d.keySize == f.keySize &&
    forall s :: s in f.segs ==>
      |d.segs[s].slots| == |f.segs[s].slots| && |d.segs[s].bitmap| == |f.segs[s].bitmap| &&
      (Sized(f.segs[s], f.keySize) ==> Sized(d.segs[s], d.keySize))
  }

  lemma TouchedShape(f: Files, d: Files, seg: SegId, i: nat, b: Bytes)
    requires Touched(f, d, seg, i, b)
    ensures SameShape(f, d) && seg in f.segs
    ensures forall s :: s in f.segs && s != seg ==> d.segs[s] == f.segs[s]
    ensures d.keySize == f.keySize && d.snapshot == f.snapshot && d.wal == f.wal
  {
  }

  lemma TouchedAgain(f: Files, d: Files, e: Files, seg: SegId, i: nat, b: Bytes)
    requires Touched(f, d, seg, i, b) && Touched(d, e, seg, i, b)
    ensures Touched(f, e, seg, i, b)
  {
    hide Bitmap.IsSet;
    assert f.segs[seg := d.segs[seg]][seg := e.segs[seg]] == f.segs[seg := e.segs[seg]];
  }

  /** Writing towards a larger bitmap is also writing towards a smaller one. */
  lemma TouchedLess(f: Files, d: Files, seg: SegId, i: nat, big: Bytes, small: Bytes)
    requires Touched(f, d, seg, i, big)
    requires forall j: nat :: Bitmap.IsSet(small, j) ==> Bitmap.IsSet(big, j)
    ensures Touched(f, d, seg, i, small)
  {
    hide Bitmap.IsSet;
  }
}
