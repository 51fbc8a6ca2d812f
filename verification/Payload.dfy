/** How value and metadata share one fixed-size slot value. */
module Payload {
  import opened Base
  import opened Buffers

  const HEADER := 8

  predicate Fits(value: Bytes, meta: Bytes, size: nat) {
    HEADER <= size < TWO_32 && |value| + |meta| <= size - HEADER
  }

  /** Both lengths, the value, the metadata, and zeros up to the slot value size. */
  function Encode(value: Bytes, meta: Bytes, size: nat): (p: Bytes)
    requires Fits(value, meta, size)
    ensures |p| == size
  {
    Widths();
    PutLe(|value|, 4) + PutLe(|meta|, 4) + value + meta + Zeros(size - HEADER - |value| - |meta|)
  }

  function ValueLength(p: Bytes): nat
    requires |p| >= HEADER
  {
    GetLe(p[..4])
  }

  function MetaLength(p: Bytes): nat
    requires |p| >= HEADER
  {
    GetLe(p[4..8])
  }

  function Decode(p: Bytes): Option<(Bytes, Bytes)> {
    if |p| < HEADER || HEADER + ValueLength(p) + MetaLength(p) > |p| then None
    else
      var n, m := ValueLength(p), MetaLength(p);
      Some((p[HEADER..HEADER + n], p[HEADER + n..HEADER + n + m]))
  }

  /** Builds the payload in place, unless it is too large for the slot. */
  method EncodeInto(value: Bytes, meta: Bytes, out: array<Byte>) returns (fits: bool)
    requires HEADER <= out.Length < TWO_32
    modifies out
    ensures fits == Fits(value, meta, out.Length)
    ensures out[..] == if fits then Encode(value, meta, out.Length) else old(out[..])
  {
    hide Zeros, Patched, PutLe;
    var n := out.Length;
    if |value| + |meta| > n - HEADER {
      return false;
    }
    Clear(out);
    EncodeSteps(value, meta, n);
    WriteLe(out, 0, |value|, 4);
    WriteLe(out, 4, |meta|, 4);
    Write(out, HEADER, value);
    Write(out, HEADER + |value|, meta);
    fits := true;
  }

  lemma EncodeSteps(value: Bytes, meta: Bytes, n: nat)
    requires Fits(value, meta, n)
    ensures var a := PutLe(|value|, 4);
            var b := a + PutLe(|meta|, 4);
            Patched(Zeros(n), 0, a) == a + Zeros(n - 4) &&
            Patched(a + Zeros(n - 4), 4, PutLe(|meta|, 4)) == b + Zeros(n - HEADER) &&
            Patched(b + Zeros(n - HEADER), HEADER, value) == b + value + Zeros(n - HEADER - |value|) &&
            Patched(b + value + Zeros(n - HEADER - |value|), HEADER + |value|, meta) == Encode(value, meta, n)
  {
    hide PutLe, Patched, Zeros;
    var a := PutLe(|value|, 4);
    var b := a + PutLe(|meta|, 4);
    assert [] + Zeros(n) == Zeros(n) && [] + a == a;
    PatchNext([], a, n);
    PatchNext(a, PutLe(|meta|, 4), n);
    assert |b| == HEADER;
    PatchNext(b, value, n);
    assert |b + value| == HEADER + |value|;
    PatchNext(b + value, meta, n);
  }

  lemma DecodeEncode(value: Bytes, meta: Bytes, size: nat)
    requires Fits(value, meta, size)
    ensures Decode(Encode(value, meta, size)) == Some((value, meta))
  {
    hide PutLe, GetLe, Zeros;
    Widths();
    LeRoundTrip(|value|, 4);
    LeRoundTrip(|meta|, 4);
    var p := Encode(value, meta, size);
    var n := |value|;
    assert p[..4] == PutLe(|value|, 4);
    assert p[4..8] == PutLe(|meta|, 4);
    assert p[HEADER..HEADER + n] == value;
    assert p[HEADER + n..HEADER + n + |meta|] == meta;
  }

  /** What is accepted is an encoding up to the bytes behind the metadata. */
  lemma DecodedIsEncoded(p: Bytes)
    requires Decode(p).Some? && |p| < TWO_32
    ensures var (value, meta) := Decode(p).value;
            Fits(value, meta, |p|) &&
            p[..HEADER + |value| + |meta|] == Encode(value, meta, |p|)[..HEADER + |value| + |meta|]
  {
    hide PutLe, GetLe, Zeros;
    Widths();
    var (value, meta) := Decode(p).value;
    LeReadWrite(p[..4]);
    LeReadWrite(p[4..8]);
    var n := HEADER + |value| + |meta|;
    assert p[..n] == p[..4] + p[4..8] + value + meta;
    assert Encode(value, meta, |p|)[..n] == PutLe(|value|, 4) + PutLe(|meta|, 4) + value + meta;
  }
}
