/**
 * What survives a process crash: the index snapshot, the log, and every segment's bitmap
 * and slots.  Recovery is a function of these files alone.
 */
module Files {
  import opened Base
  import opened Offset
  import opened WalCodec
  import Bitmap

  type Value = Bytes

  datatype Slot = Slot(key: Key, value: Value)

  datatype SegFile = SegFile(bitmap: Bytes, slots: seq<Slot>)

  /** The index: encoded offset of every key. */
  type Table = map<Key, U64>

  /** A missing snapshot file reads as an empty table. */
  datatype Files = Files(keySize: nat, snapshot: Table, wal: Bytes, segs: map<SegId, SegFile>)

  // ---------------------------------------------------------------- replay onto a table

  function Apply(t: Table, r: Record): Table {
    if r.kind == INSERT || r.kind == UPDATE then t[r.key := r.addr]
    else if r.kind == DELETE then t - {r.key}
    else t
  }

  function ApplyAll(t: Table, recs: seq<Record>): Table {
    if recs == [] then t else Apply(ApplyAll(t, recs[..|recs| - 1]), recs[|recs| - 1])
  }

  /** The table that opening the index rebuilds: snapshot first, then the log. */
  function RecoveredTable(f: Files): Table {
    ApplyAll(f.snapshot, Replayed(f.keySize, f.wal))
  }

  lemma ApplyOne(t: Table, recs: seq<Record>, r: Record)
    ensures ApplyAll(t, recs + [r]) == Apply(ApplyAll(t, recs), r)
  {
    assert (recs + [r])[..|recs|] == recs;
  }

  ghost predicate Writes(r: Record, k: Key) {
    r.key == k && (r.kind == INSERT || r.kind == UPDATE || r.kind == DELETE)
  }

  ghost predicate AgreeAt(a: Table, b: Table, k: Key) {
    (k in a <==> k in b) && (k in a ==> a[k] == b[k])
  }

  /** After a record for `k`, what came before no longer matters for `k`. */
  lemma {:induction false} LastWriterWins(a: Table, b: Table, recs: seq<Record>, k: Key)
    ensures (exists i :: 0 <= i < |recs| && Writes(recs[i], k)) || AgreeAt(a, b, k) ==>
              AgreeAt(ApplyAll(a, recs), ApplyAll(b, recs), k)
    ensures !(exists i :: 0 <= i < |recs| && Writes(recs[i], k)) ==> AgreeAt(ApplyAll(a, recs), a, k)
    decreases |recs|
  {
    if recs != [] {
      var n := |recs| - 1;
      LastWriterWins(a, b, recs[..n], k);
      assert forall i :: 0 <= i < n ==> recs[..n][i] == recs[i];
      if exists i :: 0 <= i < |recs| && Writes(recs[i], k) {
        if !Writes(recs[n], k) {
          var i :| 0 <= i < |recs| && Writes(recs[i], k);
          assert i < n && Writes(recs[..n][i], k);
        }
      }
    }
  }

  /**
   * Replaying a log over the table it already produced changes nothing, so a crash between
   * installing a snapshot and truncating the log neither loses nor revives an entry.
   */
  lemma ReplayIsIdempotent(t: Table, recs: seq<Record>)
    ensures ApplyAll(ApplyAll(t, recs), recs) == ApplyAll(t, recs)
  {
    var once := ApplyAll(t, recs);
    var twice := ApplyAll(once, recs);
    forall k
      ensures AgreeAt(twice, once, k)
    {
      LastWriterWins(once, t, recs, k);
    }
    assert forall k :: k in twice <==> AgreeAt(twice, once, k) && k in once;
  }

  ghost predicate WrittenBy(recs: seq<Record>, k: Key) {
    exists i :: 0 <= i < |recs| && Writes(recs[i], k)
  }

  /** For every key the log mentions, its last record says what the table says. */
  ghost predicate LogAgrees(t: Table, recs: seq<Record>) {
    forall k :: WrittenBy(recs, k) ==> AgreeAt(ApplyAll(map[], recs), t, k)
  }

  /** Replaying a log over some table leaves it alone exactly when the log agrees with it. */
  lemma ReplayKeepsIff(t: Table, recs: seq<Record>)
    ensures ApplyAll(t, recs) == t <==> LogAgrees(t, recs)
  {
    hide ApplyAll, Writes;
    var r := ApplyAll(t, recs);
    forall k
      ensures AgreeAt(r, t, k) <==> (WrittenBy(recs, k) ==> AgreeAt(ApplyAll(map[], recs), t, k))
    {
      LastWriterWins(t, map[], recs, k);
    }
    if LogAgrees(t, recs) {
      forall k | k in r || k in t
        ensures k in r && k in t && r[k] == t[k]
      {
        assert AgreeAt(r, t, k);
      }
    } else {
      var k :| WrittenBy(recs, k) && !AgreeAt(ApplyAll(map[], recs), t, k);
      assert !AgreeAt(r, t, k);
    }
  }

  /** For every key, `r` says what one of three tables says. */
  ghost predicate Mixes(r: Table, a: Table, b: Table, c: Table) {
    forall k :: AgreeAt(r, a, k) || AgreeAt(r, b, k) || AgreeAt(r, c, k)
  }

  /** A log replayed over another table than its own gives each key its last record, or leaves it. */
  lemma ReplayMixes(t: Table, t': Table, recs: seq<Record>)
    ensures forall k :: AgreeAt(ApplyAll(t', recs), ApplyAll(t, recs), k) || AgreeAt(ApplyAll(t', recs), t', k)
  {
    hide ApplyAll, AgreeAt, Writes;
    forall k
      ensures AgreeAt(ApplyAll(t', recs), ApplyAll(t, recs), k) || AgreeAt(ApplyAll(t', recs), t', k)
    {
      LastWriterWins(t', t, recs, k);
    }
  }

  // ---------------------------------------------------------------- slots

  function WithSlot(f: Files, seg: SegId, i: nat, c: Slot): Files
    requires seg in f.segs && i < |f.segs[seg].slots|
  {
    f.(segs := f.segs[seg := f.segs[seg].(slots := f.segs[seg].slots[i := c])])
  }

  function WithBitmap(f: Files, seg: SegId, b: Bytes): Files
    requires seg in f.segs
  {
    f.(segs := f.segs[seg := f.segs[seg].(bitmap := b)])
  }

  /** Keys in slots have a fixed width. */
  ghost predicate Sized(sf: SegFile, keySize: nat) {
    forall i :: 0 <= i < |sf.slots| ==> |sf.slots[i].key| == keySize
  }

  /** `a` names an occupied slot on disk that stores the key `k`. */
  ghost predicate Stored(f: Files, k: Key, a: U64) {
    IsSlot(a) && SegmentOf(a) in f.segs &&
    SlotOf(a) < |f.segs[SegmentOf(a)].slots| &&
    Bitmap.IsSet(f.segs[SegmentOf(a)].bitmap, SlotOf(a)) &&
    f.segs[SegmentOf(a)].slots[SlotOf(a)].key == k
  }

  ghost predicate AllStored(t: Table, f: Files) {
    forall k :: k in t ==> Stored(f, k, t[k])
  }

  /** Every segment has a bit for each slot, and keys of the configured width. */
  ghost predicate Formatted(f: Files) {
    forall s :: s in f.segs ==>
      |f.segs[s].slots| <= SLOT_UNIT && |f.segs[s].slots| <= 8 * |f.segs[s].bitmap| && Sized(f.segs[s], f.keySize)
  }

  /** No recovered entry dangles or names a slot of another key. */
  ghost predicate Recoverable(f: Files) {
    Formatted(f) && AllStored(RecoveredTable(f), f)
  }

  function ValueAt(f: Files, a: U64): Value {
    if SegmentOf(a) in f.segs && SlotOf(a) < |f.segs[SegmentOf(a)].slots|
    then f.segs[SegmentOf(a)].slots[SlotOf(a)].value
    else []
  }

  /** The key-value map a table stands for. */
  function View(t: Table, f: Files): map<Key, Value> {
    map k | k in t :: ValueAt(f, t[k])
  }

  /**
   * `d` can be reached from `f` by writes that stay inside slot `i` of segment `seg` and
   * inside its bitmap, on the way to the bitmap `b`: bits set before and in `b` stay set.
   */
  ghost predicate Touched(f: Files, d: Files, seg: SegId, i: nat, b: Bytes) {
    seg in f.segs && seg in d.segs &&
    d == f.(segs := f.segs[seg := d.segs[seg]]) &&
    |d.segs[seg].bitmap| == |f.segs[seg].bitmap| &&
    |d.segs[seg].slots| == |f.segs[seg].slots| &&
    (forall j :: 0 <= j < |f.segs[seg].slots| ==> |d.segs[seg].slots[j].key| == |f.segs[seg].slots[j].key|) &&
    (forall j :: 0 <= j < |f.segs[seg].slots| && j != i ==> d.segs[seg].slots[j] == f.segs[seg].slots[j]) &&
    (forall j: nat :: Bitmap.IsSet(f.segs[seg].bitmap, j) && Bitmap.IsSet(b, j) ==> Bitmap.IsSet(d.segs[seg].bitmap, j))
  }

  /** `t` has no entry for slot `i` of `seg`, and `b` keeps all entries in `seg` occupied. */
  ghost predicate Spares(t: Table, seg: SegId, i: nat, b: Bytes) {
    forall k :: k in t && SegmentOf(t[k]) == seg ==> SlotOf(t[k]) != i && Bitmap.IsSet(b, SlotOf(t[k]))
  }

  /** Writes that spare a table leave it stored, and leave its meaning and recovery alone. */
  lemma TouchedIsHarmless(f: Files, d: Files, seg: SegId, i: nat, b: Bytes, t: Table)
    requires AllStored(t, f) && Touched(f, d, seg, i, b) && Spares(t, seg, i, b)
    ensures AllStored(t, d)
    ensures View(t, d) == View(t, f)
    ensures RecoveredTable(d) == RecoveredTable(f)
  {
    hide Bitmap.IsSet, Flag, SegmentOf, SlotOf, EncodeSlot, IsSlot;
    forall k | k in t
      ensures Stored(d, k, t[k]) && ValueAt(d, t[k]) == ValueAt(f, t[k])
    {
      assert Stored(f, k, t[k]);
    }
  }
}
