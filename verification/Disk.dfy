/**
 * The file system below the store.  Every write may stop part-way with an error, and
 * `seen` collects every state the files pass through, so that a statement about all of
 * `seen` is a statement about a process crash at any point.
 */
module Disk {
  import opened Base
  import opened Offset
  import opened Files
  import Bitmap

  /** `w` with `b` written at `off`, as pwrite does. */
  function Overwrite(w: Bytes, off: nat, b: Bytes): Bytes
    requires off <= |w|
  {
    w[..off] + b + (if off + |b| <= |w| then w[off + |b|..] else [])
  }

  class Disk {
    var files: Files
    /** Every state of the files since the current operation began. */
    ghost var seen: iset<Files>
    /** Some request to the operating system has failed. */
    ghost var faulted: bool
    /** Some write to the log has failed. */
    ghost var logFaulted: bool
    /** Some write of a bitmap has failed. */
    ghost var flushFaulted: bool

    constructor (f: Files)
      ensures files == f && seen == iset{f} && !faulted && !logFaulted && !flushFaulted
    {
      files, seen := f, iset{f};
      faulted, logFaulted, flushFaulted := false, false, false;
    }

    /** Starts a new operation: only states from here on are collected. */
    ghost method Begin()
      modifies this`seen
      ensures seen == iset{files}
    {
      seen := iset{files};
    }

    /** A request that touches no file recovery reads: fsync, fstat, open, a temporary file. */
    method Request() returns (s: Status)
      modifies this`faulted
      ensures s == Ok || s == IOError
      ensures faulted == (old(faulted) || s == IOError)
    {
      s := Ok;
      if * {
        s := IOError;
        faulted := true;
      }
    }

    method ReadSlot(seg: SegId, i: nat) returns (s: Status, c: Slot)
      requires seg in files.segs && i < |files.segs[seg].slots|
      modifies this`faulted
      ensures s == Ok || Failure(s)
      ensures s == Ok ==> c == files.segs[seg].slots[i]
      ensures faulted == (old(faulted) || Failure(s))
    {
      s := Request();
      c := files.segs[seg].slots[i];
      if * {
        s := Corruption;
        faulted := true;
      }
    }

    method ReadBitmap(seg: SegId) returns (s: Status, b: Bytes)
      requires seg in files.segs
      modifies this`faulted
      ensures s == Ok || Failure(s)
      ensures s == Ok ==> b == files.segs[seg].bitmap
      ensures faulted == (old(faulted) || Failure(s))
    {
      s := Request();
      b := files.segs[seg].bitmap;
      if * {
        s := Corruption;
        faulted := true;
      }
    }

    /** Writes a slot; until the write completes part of the key and any value may be there. */
    method WriteSlot(seg: SegId, i: nat, c: Slot) returns (s: Status)
      requires seg in files.segs && i < |files.segs[seg].slots| && |c.key| == |files.segs[seg].slots[i].key|
      modifies this
      ensures s == Ok || s == IOError
      ensures faulted == (old(faulted) || s == IOError) && logFaulted == old(logFaulted)
      ensures flushFaulted == old(flushFaulted)
      ensures s == Ok ==> files == WithSlot(old(files), seg, i, c)
      ensures SlotTouched(old(files), files, seg, i)
      ensures files in seen
      ensures forall d :: d in seen ==> d in old(seen) || SlotTouched(old(files), d, seg, i)
    {
      hide SlotTouched;
      SlotWriteTouches(files, seg, i, c);
      var k :| 0 <= k <= |c.key|;
      var rest: Value := *;
      var torn := Slot(c.key[..k] + files.segs[seg].slots[i].key[k..], rest);
      SlotWriteTouches(files, seg, i, torn);
      files := WithSlot(files, seg, i, torn);
      seen := seen + iset{files};
      s := Request();
      if s == Ok {
        files := WithSlot(files, seg, i, c);
        SlotRewritten(old(files), seg, i, torn, c);
        seen := seen + iset{files};
      }
    }

    method WriteBitmap(seg: SegId, b: Bytes) returns (s: Status)
      requires seg in files.segs && |b| == |files.segs[seg].bitmap|
      modifies this
      ensures s == Ok || s == IOError
      ensures faulted == (old(faulted) || s == IOError) && logFaulted == old(logFaulted)
      ensures flushFaulted == (old(flushFaulted) || s == IOError)
      ensures s == Ok ==> files == WithBitmap(old(files), seg, b)
      ensures BitmapTouched(old(files), files, seg, b)
      ensures files in seen
      ensures forall d :: d in seen ==> d in old(seen) || BitmapTouched(old(files), d, seg, b)
    {
      hide BitmapTouched, Bitmap.Torn;
      ghost var before := files;
      ghost var old_ := files.segs[seg].bitmap;
      var off := 0;
      TornEnds(old_, b);
      BitmapWriteTouches(before, seg, b, 0);
      seen := seen + iset{files};
      while off < |b|
        invariant 0 <= off <= |b|
        invariant files == WithBitmap(before, seg, Bitmap.Torn(old_, b, off)) && files in seen
        invariant faulted == old(faulted) && logFaulted == old(logFaulted) && flushFaulted == old(flushFaulted)
        invariant BitmapTouched(before, files, seg, b)
        invariant forall d :: d in seen ==> d in old(seen) || BitmapTouched(before, d, seg, b)
      {
        s := Request();
        if s != Ok {
          flushFaulted := true;
          return;
        }
        var n :| 1 <= n <= |b| - off; // pwrite may write less than asked
        TornMore(old_, b, off, off + n);
        off := off + n;
        files := WithBitmap(files, seg, b[..off] + files.segs[seg].bitmap[off..]);
        BitmapWriteTouches(before, seg, b, off);
        seen := seen + iset{files};
      }
      s := Ok;
    }

    method WriteWal(off: nat, buf: Bytes) returns (s: Status)
      requires off <= |files.wal|
      modifies this
      ensures s == Ok || s == IOError
      ensures faulted == (old(faulted) || s == IOError) && logFaulted == (old(logFaulted) || s == IOError)
      ensures flushFaulted == old(flushFaulted)
      ensures s == Ok ==> files == old(files).(wal := Overwrite(old(files).wal, off, buf))
      ensures s != Ok ==> PartlyLogged(old(files), files, off, buf)
      ensures files in seen
      ensures forall d :: d in seen ==>
                d in old(seen) || PartlyLogged(old(files), d, off, buf) ||
                (s == Ok && d == old(files).(wal := Overwrite(old(files).wal, off, buf)))
    {
      hide Overwrite;
      ghost var before := files;
      ghost var logged := files.(wal := Overwrite(files.wal, off, buf));
      var done := 0;
      OverwriteNothing(files.wal, off);
      assert buf[..0] == [] && buf[..|buf|] == buf;
      seen := seen + iset{files};
      while done < |buf|
        invariant 0 <= done <= |buf|
        invariant files == before.(wal := Overwrite(before.wal, off, buf[..done])) && files in seen
        invariant faulted == old(faulted) && logFaulted == old(logFaulted) && flushFaulted == old(flushFaulted)
        invariant forall d :: d in seen ==>
                    d in old(seen) || PartlyLogged(before, d, off, buf) || (done == |buf| && d == logged)
      {
        s := Request();
        if s != Ok {
          logFaulted := true;
          return;
        }
        var n :| 1 <= n <= |buf| - done;
        OverwriteMore(before.wal, off, buf, done, n);
        files := files.(wal := Overwrite(files.wal, off + done, buf[done..done + n]));
        done := done + n;
        seen := seen + iset{files};
      }
      s := Ok;
    }

    /** Cuts the log; on failure the file is as before. */
    method TruncateWal(n: nat) returns (s: Status)
      requires n <= |files.wal|
      modifies this
      ensures s == Ok || s == IOError
      ensures faulted == (old(faulted) || s == IOError) && logFaulted == old(logFaulted)
      ensures flushFaulted == old(flushFaulted)
      ensures files == if s == Ok then old(files).(wal := old(files).wal[..n]) else old(files)
      ensures files in seen && forall d :: d in seen ==> d in old(seen) || d == files
    {
      s := Request();
      if s == Ok {
        files := files.(wal := files.wal[..n]);
      }
      seen := seen + iset{files};
    }

    /** Renames a complete temporary snapshot over the current one: all or nothing. */
    method InstallSnapshot(t: Table) returns (s: Status)
      modifies this
      ensures s == Ok || s == IOError
      ensures faulted == (old(faulted) || s == IOError) && logFaulted == old(logFaulted)
      ensures flushFaulted == old(flushFaulted)
      ensures files == if s == Ok then old(files).(snapshot := t) else old(files)
      ensures files in seen && forall d :: d in seen ==> d in old(seen) || d == files
    {
      s := Request();
      if s == Ok {
        files := files.(snapshot := t);
      }
      seen := seen + iset{files};
    }
  }

  /** A log write that stopped before its last byte. */
  ghost predicate PartlyLogged(f: Files, d: Files, off: nat, buf: Bytes)
    requires off <= |f.wal|
  {
    exists k :: 0 <= k < |buf| && d == f.(wal := Overwrite(f.wal, off, buf[..k]))
  }

  lemma OverwriteMore(w: Bytes, off: nat, buf: Bytes, k: nat, n: nat)
    requires off <= |w| && k + n <= |buf|
    ensures off + k <= |Overwrite(w, off, buf[..k])|
    ensures Overwrite(Overwrite(w, off, buf[..k]), off + k, buf[k..k + n]) == Overwrite(w, off, buf[..k + n])
  {
    assert buf[..k] + buf[k..k + n] == buf[..k + n];
  }

  lemma OverwriteNothing(w: Bytes, off: nat)
    requires off <= |w|
    ensures Overwrite(w, off, []) == w
  {
  }

  lemma TornEnds(before: Bytes, after: Bytes)
    requires |before| == |after|
    ensures Bitmap.Torn(before, after, 0) == before && Bitmap.Torn(before, after, |after|) == after
  {
  }

  lemma TornMore(before: Bytes, after: Bytes, k: nat, m: nat)
    requires |before| == |after| && k <= m <= |after|
    ensures after[..m] + Bitmap.Torn(before, after, k)[m..] == Bitmap.Torn(before, after, m)
  {
  }

  ghost predicate SlotTouched(f: Files, d: Files, seg: SegId, i: nat) {
    forall b :: Touched(f, d, seg, i, b)
  }

  ghost predicate BitmapTouched(f: Files, d: Files, seg: SegId, b: Bytes) {
    forall i :: Touched(f, d, seg, i, b)
  }

  lemma SlotRewritten(f: Files, seg: SegId, i: nat, a: Slot, c: Slot)
    requires seg in f.segs && i < |f.segs[seg].slots|
    ensures WithSlot(WithSlot(f, seg, i, a), seg, i, c) == WithSlot(f, seg, i, c)
  {
    var slots := f.segs[seg].slots;
    assert slots[i := a][i := c] == slots[i := c];
    var x, y := SegFile(f.segs[seg].bitmap, slots[i := a]), SegFile(f.segs[seg].bitmap, slots[i := c]);
    assert f.segs[seg := x][seg := y] == f.segs[seg := y];
  }

  lemma SlotWriteTouches(f: Files, seg: SegId, i: nat, c: Slot)
    requires seg in f.segs && i < |f.segs[seg].slots| && |c.key| == |f.segs[seg].slots[i].key|
    ensures SlotTouched(f, WithSlot(f, seg, i, c), seg, i)
  {
    hide Bitmap.IsSet;
  }

  lemma BitmapWriteTouches(f: Files, seg: SegId, b: Bytes, k: nat)
    requires seg in f.segs && |b| == |f.segs[seg].bitmap| && k <= |b|
    ensures BitmapTouched(f, WithBitmap(f, seg, Bitmap.Torn(f.segs[seg].bitmap, b, k)), seg, b)
  {
    hide Bitmap.IsSet, Bitmap.Torn;
    forall j: nat | Bitmap.IsSet(f.segs[seg].bitmap, j) && Bitmap.IsSet(b, j)
      ensures Bitmap.IsSet(Bitmap.Torn(f.segs[seg].bitmap, b, k), j)
    {
      Bitmap.TornAt(f.segs[seg].bitmap, b, k, j);
    }
  }
}
