/** The log writer: appends whole records and makes them durable before returning. */
module Wal {
  import opened Base
  import opened WalCodec
  import opened Files
  import opened Disk

  /**
   * The first `written` bytes of the log are whole good records; what follows is less than
   * a record, left by a write that failed.
   */
  ghost predicate LogClean(f: Files, written: nat) {
    written <= |f.wal| < written + RecordSize(f.keySize) &&
    GoodBytes(f.keySize, f.wal[..written]) == written
  }

  ghost predicate SameButWal(f: Files, d: Files) {
    d == f.(wal := d.wal)
  }

  lemma ShortTailIsTorn(keySize: nat, tail: Bytes)
    requires |tail| < RecordSize(keySize)
    ensures TornTail(keySize, tail)
  {
  }

  /** A short tail behind a clean log does not change what replay delivers. */
  lemma ReplayIgnoresTail(f: Files, written: nat, d: Files)
    requires LogClean(f, written) && SameButWal(f, d)
    requires written <= |d.wal| < written + RecordSize(f.keySize) && d.wal[..written] == f.wal[..written]
    ensures LogClean(d, written)
    ensures Replayed(d.keySize, d.wal) == Replayed(f.keySize, f.wal[..written])
    ensures RecoveredTable(d) == RecoveredTable(f)
  {
    hide Replayed, GoodBytes, TornTail, RecordSize;
    var clean := f.wal[..written];
    ShortTailIsTorn(f.keySize, d.wal[written..]);
    ShortTailIsTorn(f.keySize, f.wal[written..]);
    TornAppend(f.keySize, clean, d.wal[written..]);
    TornAppend(f.keySize, clean, f.wal[written..]);
    assert clean + d.wal[written..] == d.wal;
    assert clean + f.wal[written..] == f.wal;
  }

  /** A log write that stopped early is invisible to recovery. */
  lemma PartialAppend(f: Files, written: nat, r: Record, d: Files)
    requires LogClean(f, written) && |r.key| == f.keySize
    requires PartlyLogged(f, d, written, Encode(r))
    ensures LogClean(d, written) && RecoveredTable(d) == RecoveredTable(f) && SameButWal(f, d)
  {
    hide Replayed, GoodBytes, Encode, RecordSize, RecoveredTable;
    var k :| 0 <= k < |Encode(r)| && d == f.(wal := Overwrite(f.wal, written, Encode(r)[..k]));
    assert d.wal[..written] == f.wal[..written];
    ReplayIgnoresTail(f, written, d);
  }

  /** A complete log write adds exactly its record. */
  lemma CompleteAppend(f: Files, written: nat, r: Record)
    requires LogClean(f, written) && |r.key| == f.keySize
    ensures var d := f.(wal := Overwrite(f.wal, written, Encode(r)));
            LogClean(d, written + |Encode(r)|) && RecoveredTable(d) == Apply(RecoveredTable(f), r) &&
            Replayed(d.keySize, d.wal) == Replayed(f.keySize, f.wal) + [r]
  {
    hide Replayed, GoodBytes, Encode, Apply, RecordSize;
    var d := f.(wal := Overwrite(f.wal, written, Encode(r)));
    var clean := f.wal[..written];
    assert d.wal == clean + Encode(r) by { LastWrite(f.wal, written, Encode(r)); }
    AppendRecord(clean, r);
    assert d.wal[..written + |Encode(r)|] == d.wal;
    ReplayIgnoresTail(f, written, f);
    ApplyOne(f.snapshot, Replayed(f.keySize, clean), r);
  }

  lemma LastWrite(w: Bytes, off: nat, b: Bytes)
    requires off <= |w| < off + |b|
    ensures Overwrite(w, off, b) == w[..off] + b
  {
  }

  /** The scan loop of the reader.  A failing read aborts it. */
  method Replay(disk: Disk) returns (s: Status, recs: seq<Record>, good: nat)
    modifies disk`faulted
    ensures s == Ok || s == IOError
    ensures disk.faulted == (old(disk.faulted) || s == IOError)
    ensures s == Ok ==>
              recs == Replayed(disk.files.keySize, disk.files.wal) && good == GoodBytes(disk.files.keySize,
                                                                                        disk.files.wal)
    ensures recs <= Replayed(disk.files.keySize, disk.files.wal)
  {
    hide *;
    var keySize, file := disk.files.keySize, disk.files.wal;
    var n := RecordSize(keySize);
    recs, good, s := [], 0, Ok;
    assert file[0..] == file;
    while true
      invariant good <= |file| && s == Ok && disk.faulted == old(disk.faulted)
      invariant recs + Replayed(keySize, file[good..]) == Replayed(keySize, file)
      invariant good + GoodBytes(keySize, file[good..]) == GoodBytes(keySize, file)
      decreases |file| - good
    {
      ReplayAt(keySize, file, good);
      s := disk.Request();
      if s != Ok {
        return;
      }
      if |file| - good < n {
        // End of file, or a partial record left by a torn write.
        return;
      }
      var buf := file[good..good + n];
      var rec := Decode(keySize, buf);
      if rec.None? {
        return;
      }
      assert recs + ([rec.value] + Replayed(keySize, file[good + n..])) ==
             (recs + [rec.value]) + Replayed(keySize, file[good + n..]);
      recs := recs + [rec.value];
      good := good + n;
    }
  }

  class WalWriter {
    const disk: Disk
    var isOpen: bool
    var written: nat

    constructor (disk: Disk)
      ensures this.disk == disk && !isOpen && written == 0
    {
      this.disk, isOpen, written := disk, false, 0;
    }

    /**
     * Writes the record and syncs it.  A failed sync reports an error although the record
     * is in the log and `written` has moved past it.
     */
    method Append(r: Record) returns (s: Status)
      requires isOpen && LogClean(disk.files, written) && |r.key| == disk.files.keySize
      modifies this`written, disk
      ensures s == Ok || s == IOError
      ensures disk.faulted == (old(disk.faulted) || s == IOError)
      ensures disk.logFaulted == (old(disk.logFaulted) || written == old(written))
      ensures LogClean(disk.files, written) && SameButWal(old(disk.files), disk.files)
      ensures written == old(written) || written == old(written) + RecordSize(disk.files.keySize)
      ensures s == Ok ==> written != old(written)
      ensures RecoveredTable(disk.files) ==
                if written == old(written) then RecoveredTable(old(disk.files))
                else Apply(RecoveredTable(old(disk.files)), r)
      ensures written != old(written) ==>
                Replayed(disk.files.keySize, disk.files.wal) ==
                Replayed(old(disk.files).keySize, old(disk.files).wal) + [r]
      ensures disk.files in disk.seen
      ensures forall d :: d in disk.seen ==>
                d in old(disk.seen) || InFlight(old(disk.files), d, r, written != old(written))
    {
      hide LogClean, RecordSize, RecoveredTable, Apply, Encode, Overwrite, PartlyLogged, Replayed;
      ghost var f := disk.files;
      assert written <= |disk.files.wal| by { LogCleanFits(disk.files, written); }
      var out := new Byte[RecordSize(|r.key|)];
      EncodeInto(r, out);
      var buf := out[..];
      s := disk.WriteWal(written, buf);
      CompleteAppend(f, written, r);
      forall d | PartlyLogged(f, d, written, buf)
        ensures LogClean(d, written) && RecoveredTable(d) == RecoveredTable(f) && SameButWal(f, d)
      {
        PartialAppend(f, written, r, d);
      }
      if s != Ok {
        return;
      }
      written := written + |buf|;
      s := disk.Request();
    }

    method Close()
      modifies this`isOpen
      ensures !isOpen
    {
      isOpen := false;
    }

    /** Closes the log and opens it again empty; it stays closed when that fails. */
    method Rotate() returns (s: Status)
      modifies this, disk
      ensures s == Ok || s == IOError
      ensures disk.faulted == (old(disk.faulted) || s == IOError) && disk.logFaulted == old(disk.logFaulted)
      ensures s == Ok ==> isOpen && written == 0 && disk.files.wal == []
      ensures s != Ok ==> !isOpen
      ensures disk.files == old(disk.files) || disk.files == old(disk.files).(wal := [])
      ensures disk.files in disk.seen
      ensures forall d :: d in disk.seen ==> d in old(disk.seen) || d == disk.files || d == old(disk.files)
    {
      Close();
      assert disk.files.wal[..0] == [];
      s := disk.TruncateWal(0);
      if s != Ok {
        return;
      }
      s := disk.Request();
      if s != Ok {
        return;
      }
      isOpen, written := true, 0;
    }

    /** Opens the log for appending behind its last good record. */
    method Open() returns (s: Status)
      modifies this, disk`faulted
      ensures s == Ok || s == IOError
      ensures disk.faulted == (old(disk.faulted) || s == IOError)
      ensures s == Ok ==> isOpen && written == |disk.files.wal|
      ensures s != Ok ==> isOpen == old(isOpen) && written == old(written)
    {
      s := disk.Request();
      if s == Ok {
        isOpen, written := true, |disk.files.wal|;
      }
    }
  }

  /** A state of the files while one record is being appended, which may get there or not. */
  ghost predicate InFlight(f: Files, d: Files, r: Record, complete: bool) {
    SameButWal(f, d) &&
    (RecoveredTable(d) == RecoveredTable(f) || (complete && RecoveredTable(d) == Apply(RecoveredTable(f), r)))
  }

  lemma LogCleanFits(f: Files, written: nat)
    requires LogClean(f, written)
    ensures written <= |f.wal|
  {
  }

  lemma EmptyLogIsClean(f: Files)
    requires f.wal == []
    ensures LogClean(f, 0) && RecoveredTable(f) == f.snapshot
  {
    hide Decode;
  }
}
