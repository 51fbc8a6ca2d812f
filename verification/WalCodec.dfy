/**
 * The write-ahead log on disk: fixed-size checksummed records, and the sequential scan
 * that recovers the records in front of a torn or corrupt tail.
 */
module WalCodec {
  import opened Base
  import opened Buffers
  import Crc32

  const MAGIC: Byte := 0xA5
  const INSERT: Byte := 0x01
  const UPDATE: Byte := 0x02
  const DELETE: Byte := 0x03

  type Key = Bytes

  datatype Record = Record(kind: Byte, key: Key, addr: U64, oldAddr: U64)

  /** Offset of the checksum, which is also the length of the checksummed payload. */
  function CrcOffset(keySize: nat): nat {
    2 + keySize + 16
  }

  /** Record length: payload and checksum rounded up to a multiple of eight. */
  function RecordSize(keySize: nat): (n: nat)
    ensures n % 8 == 0 && CrcOffset(keySize) + 4 <= n < CrcOffset(keySize) + 12
  {
    (CrcOffset(keySize) + 4 + 7) / 8 * 8
  }

  function Payload(r: Record): (b: Bytes)
    ensures |b| == CrcOffset(|r.key|)
  {
    [MAGIC, r.kind] + r.key + PutLe(r.addr, 8) + PutLe(r.oldAddr, 8)
  }

  function Encode(r: Record): (b: Bytes)
    ensures |b| == RecordSize(|r.key|)
  {
    Payload(r) + Crc32.Le32(Crc32.Crc(Payload(r))) + Zeros(RecordSize(|r.key|) - CrcOffset(|r.key|) - 4)
  }

  /** Builds the record in place: fields first, then the checksum over them. */
  method EncodeInto(r: Record, out: array<Byte>)
    requires out.Length == RecordSize(|r.key|)
    modifies out
    ensures out[..] == Encode(r)
  {
    hide Zeros, Patched, PutLe, Crc32.Crc, Crc32.Le32, Crc32.Bits, Crc32.Remainder, Crc32.Dividend, Crc32.Complement;
    var k, n := |r.key|, out.Length;
    Clear(out);
    EncodeSteps(r, n);
    Write(out, 0, [MAGIC, r.kind]);
    Write(out, 2, r.key);
    WriteLe(out, 2 + k, r.addr, 8);
    WriteLe(out, 10 + k, r.oldAddr, 8);
    PayloadIsWritten(r, n);
    var crc := Crc32.Compute(out[..CrcOffset(k)]);
    Write(out, CrcOffset(k), Crc32.Le32(crc));
  }

  /** Each write extends what is written; the rest stays zero. */
  lemma EncodeSteps(r: Record, n: nat)
    requires n == RecordSize(|r.key|)
    ensures var k := |r.key|;
            var a := [MAGIC, r.kind];
            var b := a + r.key;
            var c := b + PutLe(r.addr, 8);
            Patched(Zeros(n), 0, a) == a + Zeros(n - 2) &&
            Patched(a + Zeros(n - 2), 2, r.key) == b + Zeros(n - 2 - k) &&
            Patched(b + Zeros(n - 2 - k), 2 + k, PutLe(r.addr, 8)) == c + Zeros(n - 10 - k) &&
            Patched(c + Zeros(n - 10 - k), 10 + k, PutLe(r.oldAddr, 8)) == Payload(r) + Zeros(n - CrcOffset(k))
  {
    hide PutLe, Patched;
    var k := |r.key|;
    var a := [MAGIC, r.kind];
    var b := a + r.key;
    assert [] + Zeros(n) == Zeros(n) && [] + a == a;
    PatchNext([], a, n);
    PatchNext(a, r.key, n);
    PatchNext(b, PutLe(r.addr, 8), n);
    PatchNext(b + PutLe(r.addr, 8), PutLe(r.oldAddr, 8), n);
  }

  lemma PayloadIsWritten(r: Record, n: nat)
    requires n == RecordSize(|r.key|)
    ensures (Payload(r) + Zeros(n - CrcOffset(|r.key|)))[..CrcOffset(|r.key|)] == Payload(r)
    ensures Patched(Payload(r) + Zeros(n - CrcOffset(|r.key|)), CrcOffset(|r.key|),
                    Crc32.Le32(Crc32.Crc(Payload(r)))) == Encode(r)
  {
    hide Payload, Crc32.Crc;
    PatchNext(Payload(r), Crc32.Le32(Crc32.Crc(Payload(r))), n);
  }

  function Checksum(keySize: nat, b: Bytes): bv32
    requires |b| == RecordSize(keySize)
  {
    Crc32.FromLe32(b[CrcOffset(keySize)..CrcOffset(keySize) + 4])
  }

  function Fields(keySize: nat, b: Bytes): (r: Record)
    requires |b| == RecordSize(keySize)
    ensures |r.key| == keySize
  {
    LeReadWrite(b[2 + keySize..10 + keySize]);
    LeReadWrite(b[10 + keySize..18 + keySize]);
    Widths();
    Record(b[1], b[2..2 + keySize], GetLe(b[2 + keySize..10 + keySize]), GetLe(b[10 + keySize..18 + keySize]))
  }

  function Decode(keySize: nat, b: Bytes): (r: Option<Record>)
    requires |b| == RecordSize(keySize)
    ensures r.Some? ==> |r.value.key| == keySize
  {
    if b[0] != MAGIC then None
    else if Checksum(keySize, b) != Crc32.Crc(b[..CrcOffset(keySize)]) then None
    else Some(Fields(keySize, b))
  }

  lemma FieldsOfPayload(r: Record, b: Bytes)
    requires |b| == RecordSize(|r.key|)
    requires b[..CrcOffset(|r.key|)] == Payload(r)
    ensures Fields(|r.key|, b) == r
  {
    hide PutLe, GetLe;
    var k := |r.key|;
    Widths();
    LeRoundTrip(r.addr, 8);
    LeRoundTrip(r.oldAddr, 8);
    PayloadParts(r);
    PrefixPart(b, Payload(r), 2, 2 + k);
    PrefixPart(b, Payload(r), 2 + k, 10 + k);
    PrefixPart(b, Payload(r), 10 + k, 18 + k);
    assert b[1] == Payload(r)[1];
  }

  /** The fields lie one behind the other. */
  lemma PayloadParts(r: Record)
    ensures var k, p := |r.key|, Payload(r);
            p[1] == r.kind && p[2..2 + k] == r.key &&
            p[2 + k..10 + k] == PutLe(r.addr, 8) && p[10 + k..18 + k] == PutLe(r.oldAddr, 8)
  {
    hide PutLe;
  }

  lemma PrefixPart(b: Bytes, p: Bytes, from: nat, to: nat)
    requires p <= b && from <= to <= |p|
    ensures b[from..to] == p[from..to]
  {
  }

  /** Encoding then decoding is the identity, for every record of every key width. */
  lemma DecodeEncode(r: Record)
    ensures Decode(|r.key|, Encode(r)) == Some(r)
  {
    var b := Encode(r);
    var n := CrcOffset(|r.key|);
    assert b[..n] == Payload(r);
    assert b[0] == Payload(r)[0] == MAGIC;
    assert b[n..n + 4] == Crc32.Le32(Crc32.Crc(Payload(r)));
    Crc32.Le32RoundTrip(Crc32.Crc(Payload(r)));
    hide Crc32.Le32, Crc32.FromLe32, Crc32.Crc;
    FieldsOfPayload(r, b);
  }

  /**
   * Any damage confined to four consecutive bytes of payload and checksum is rejected,
   * wherever the four bytes lie, also across the border between the two.
   */
  lemma BurstIsRejected(keySize: nat, good: Bytes, bad: Bytes, p: nat)
    requires |good| == RecordSize(keySize) && |bad| == RecordSize(keySize)
    requires Decode(keySize, good).Some?
    requires p + 4 <= CrcOffset(keySize) + 4
    requires good[..p] == bad[..p] && good[p + 4..] == bad[p + 4..] && good != bad
    ensures Decode(keySize, bad) == None
  {
    hide Crc32.Crc, Crc32.FromLe32, Crc32.Bits, Crc32.Residue, Crc32.Register, Fields;
    var n := CrcOffset(keySize) + 4;
    var g, b := good[..n], bad[..n];
    SplitChecksum(keySize, good);
    SplitChecksum(keySize, bad);
    WindowDiffers(good, bad, p);
    assert g == g[..p] + g[p..p + 4] + g[p + 4..];
    assert b == g[..p] + b[p..p + 4] + g[p + 4..] by {
      assert b[..p] == bad[..p] == good[..p] == g[..p];
      assert b[p + 4..] == bad[p + 4..][..n - p - 4] == good[p + 4..][..n - p - 4] == g[p + 4..];
    }
    assert g[p..p + 4] == good[p..p + 4] && b[p..p + 4] == bad[p..p + 4];
    Crc32.BurstChangesRegister(Crc32.ONES, g[..p], g[p..p + 4], b[p..p + 4], g[p + 4..]);
    BitsDiffer(Crc32.Register(Crc32.ONES, g), Crc32.Register(Crc32.ONES, b));
  }

  lemma WindowDiffers(good: Bytes, bad: Bytes, p: nat)
    requires |good| == |bad| && p + 4 <= |good|
    requires good[..p] == bad[..p] && good[p + 4..] == bad[p + 4..] && good != bad
    ensures good[p..p + 4] != bad[p..p + 4]
  {
    assert good == good[..p] + good[p..p + 4] + good[p + 4..];
    assert bad == bad[..p] + bad[p..p + 4] + bad[p + 4..];
  }

  lemma BitsDiffer(a: bv32, b: bv32)
    requires a != b
    ensures Crc32.Bits(a) != Crc32.Bits(b)
  {
    if Crc32.Bits(a) == Crc32.Bits(b) {
      Crc32.BitsInjective(a, b);
    }
  }

  /** The checksum test, said of payload and checksum together. */
  lemma SplitChecksum(keySize: nat, b: Bytes)
    requires |b| == RecordSize(keySize)
    ensures Checksum(keySize, b) == Crc32.Crc(b[..CrcOffset(keySize)]) <==>
            Crc32.Bits(Crc32.Register(Crc32.ONES, b[..CrcOffset(keySize) + 4])) == Crc32.Residue()
  {
    var n := CrcOffset(keySize);
    hide Crc32.Crc, Crc32.FromLe32, Crc32.Bits, Crc32.Residue, Crc32.Register;
    assert b[..n + 4] == b[..n] + b[n..n + 4];
    Crc32.ChecksumIffResidue(b[..n], b[n..n + 4]);
  }

  // ---------------------------------------------------------------- replay

  /** Whether the scan accepts another record at the front of `file`. */
  predicate StartsGood(keySize: nat, file: Bytes) {
    |file| >= RecordSize(keySize) && Decode(keySize, file[..RecordSize(keySize)]).Some?
  }

  /** The records a scan from the start of the file delivers. */
  function Replayed(keySize: nat, file: Bytes): (recs: seq<Record>)
    ensures forall i :: 0 <= i < |recs| ==> |recs[i].key| == keySize
    decreases |file|
  {
    if StartsGood(keySize, file)
    then [Decode(keySize, file[..RecordSize(keySize)]).value] + Replayed(keySize, file[RecordSize(keySize)..])
    else []
  }

  /** The byte position just past the last good record. */
  function GoodBytes(keySize: nat, file: Bytes): (n: nat)
    ensures n <= |file|
    decreases |file|
  {
    if StartsGood(keySize, file) then RecordSize(keySize) + GoodBytes(keySize, file[RecordSize(keySize)..]) else 0
  }

  /** The good position is a whole number of records, one for each record delivered. */
  lemma {:induction false} GoodBytesCounts(keySize: nat, file: Bytes)
    ensures GoodBytes(keySize, file) == |Replayed(keySize, file)| * RecordSize(keySize)
    decreases |file|
  {
    hide Decode, RecordSize;
    if StartsGood(keySize, file) {
      GoodBytesCounts(keySize, file[RecordSize(keySize)..]);
    }
  }

  function EncodeAll(recs: seq<Record>): (b: Bytes)
  {
    if recs == [] then [] else Encode(recs[0]) + EncodeAll(recs[1..])
  }

  /** A tail the scan stops at: shorter than a record, or starting with an undecodable one. */
  ghost predicate TornTail(keySize: nat, tail: Bytes) {
    !StartsGood(keySize, tail)
  }

  /** What the scan delivers from position `at` on. */
  lemma ReplayAt(keySize: nat, file: Bytes, at: nat)
    requires at <= |file|
    ensures var n := RecordSize(keySize);
            if |file| - at >= n && Decode(keySize, file[at..at + n]).Some?
            then Replayed(keySize, file[at..]) ==
                 [Decode(keySize, file[at..at + n]).value] + Replayed(keySize, file[at + n..]) &&
                 GoodBytes(keySize, file[at..]) == n + GoodBytes(keySize, file[at + n..])
            else Replayed(keySize, file[at..]) == [] && GoodBytes(keySize, file[at..]) == 0
  {
    hide Decode, RecordSize;
    var n := RecordSize(keySize);
    if |file| - at >= n {
      assert file[at..][..n] == file[at..at + n];
      assert file[at..][n..] == file[at + n..];
    }
  }

  /** A scan of whole good records followed by anything continues in what follows. */
  lemma {:induction false} ReplayedAppend(keySize: nat, a: Bytes, b: Bytes)
    requires |a| == GoodBytes(keySize, a)
    ensures Replayed(keySize, a + b) == Replayed(keySize, a) + Replayed(keySize, b)
    ensures GoodBytes(keySize, a + b) == |a| + GoodBytes(keySize, b)
    decreases |a|
  {
    hide Decode, RecordSize;
    var n := RecordSize(keySize);
    if a == [] {
      assert a + b == b;
    } else {
      assert (a + b)[..n] == a[..n] && (a + b)[n..] == a[n..] + b;
      ReplayedAppend(keySize, a[n..], b);
    }
  }

  lemma ReplayedRecord(r: Record)
    ensures Replayed(|r.key|, Encode(r)) == [r]
    ensures GoodBytes(|r.key|, Encode(r)) == |Encode(r)|
  {
    var b := Encode(r);
    hide Encode, Decode;
    DecodeEncode(r);
    assert b[..RecordSize(|r.key|)] == b;
    assert b[RecordSize(|r.key|)..] == [];
  }

  lemma TornTailStops(keySize: nat, tail: Bytes)
    requires TornTail(keySize, tail)
    ensures Replayed(keySize, tail) == [] && GoodBytes(keySize, tail) == 0
  {
  }

  /** Appending one encoded record to a clean log adds exactly that record to the replay. */
  lemma AppendRecord(log: Bytes, r: Record)
    requires |log| == GoodBytes(|r.key|, log)
    ensures Replayed(|r.key|, log + Encode(r)) == Replayed(|r.key|, log) + [r]
    ensures |log + Encode(r)| == GoodBytes(|r.key|, log + Encode(r))
  {
    hide Encode, Decode, Replayed, GoodBytes;
    ReplayedAppend(|r.key|, log, Encode(r));
    ReplayedRecord(r);
  }

  /** Part of a record at the end of a clean log is ignored. */
  lemma TornAppend(keySize: nat, log: Bytes, tail: Bytes)
    requires |log| == GoodBytes(keySize, log)
    requires TornTail(keySize, tail)
    ensures Replayed(keySize, log + tail) == Replayed(keySize, log)
  {
    hide Replayed, GoodBytes, Decode, StartsGood;
    ReplayedAppend(keySize, log, tail);
    TornTailStops(keySize, tail);
  }

  /**
   * The scan of any record sequence followed by a torn or undecodable tail delivers
   * exactly those records, and the good position is their total length.
   */
  lemma {:induction false} LogPrefixRecovered(keySize: nat, recs: seq<Record>, tail: Bytes)
    requires forall i :: 0 <= i < |recs| ==> |recs[i].key| == keySize
    requires TornTail(keySize, tail)
    ensures Replayed(keySize, EncodeAll(recs) + tail) == recs
    ensures GoodBytes(keySize, EncodeAll(recs) + tail) == |EncodeAll(recs)|
    decreases |recs|
  {
    hide Encode, Decode, RecordSize, StartsGood, Replayed, GoodBytes;
    if recs == [] {
      assert EncodeAll(recs) + tail == tail;
      TornTailStops(keySize, tail);
    } else {
      var first, rest := Encode(recs[0]), EncodeAll(recs[1..]) + tail;
      LogPrefixRecovered(keySize, recs[1..], tail);
      ReplayedRecord(recs[0]);
      ReplayedAppend(keySize, first, rest);
      assert EncodeAll(recs) + tail == first + rest;
      assert [recs[0]] + recs[1..] == recs;
    }
  }

  /** Cutting a log at the good position leaves a clean log with the same replay. */
  lemma {:induction false} TruncateIsRepeatable(keySize: nat, file: Bytes)
    ensures Replayed(keySize, file[..GoodBytes(keySize, file)]) == Replayed(keySize, file)
    ensures GoodBytes(keySize, file[..GoodBytes(keySize, file)]) == GoodBytes(keySize, file)
    decreases |file|
  {
    hide Decode, RecordSize;
    var n, good := RecordSize(keySize), GoodBytes(keySize, file);
    if StartsGood(keySize, file) {
      TruncateIsRepeatable(keySize, file[n..]);
      assert file[..good][..n] == file[..n];
      assert file[..good][n..] == file[n..][..good - n];
    }
  }
}
