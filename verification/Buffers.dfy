/** Writing fields into a fixed-size buffer in place. */
module Buffers {
  import opened Base

  function Zeros(n: nat): (b: Bytes)
    ensures |b| == n && forall i :: 0 <= i < n ==> b[i] == 0
  {
    seq(n, i => 0)
  }

  function Patched(s: Bytes, at: nat, b: Bytes): Bytes
    requires at + |b| <= |s|
  {
    s[..at] + b + s[at + |b|..]
  }

  /** Writing behind what has been written so far. */
  lemma PatchNext(done: Bytes, b: Bytes, size: nat)
    requires |done| + |b| <= size
    ensures Patched(done + Zeros(size - |done|), |done|, b) == done + b + Zeros(size - |done| - |b|)
  {
  }

  /** memset to zero. */
  method Clear(buf: array<Byte>)
    modifies buf
    ensures buf[..] == Zeros(buf.Length)
  {
    for i := 0 to buf.Length
      invariant forall j :: 0 <= j < i ==> buf[j] == 0
    {
      buf[i] := 0;
    }
  }

  /** memcpy. */
  method Write(buf: array<Byte>, at: nat, b: Bytes)
    requires at + |b| <= buf.Length
    modifies buf
    ensures buf[..] == Patched(old(buf[..]), at, b)
  {
    for i := 0 to |b|
      invariant forall j :: 0 <= j < i ==> buf[at + j] == b[j]
      invariant forall j :: 0 <= j < buf.Length && !(at <= j < at + i) ==> buf[j] == old(buf[j])
    {
      buf[at + i] := b[i];
    }
  }

  /** The low `n` bytes of `v`, least significant first. */
  method WriteLe(buf: array<Byte>, at: nat, v: nat, n: nat)
    requires at + n <= buf.Length
    modifies buf
    ensures buf[..] == Patched(old(buf[..]), at, PutLe(v, n))
  {
    ghost var b := PutLe(v, n);
    var w := v;
    for i := 0 to n
      invariant |b| == n && b[i..] == PutLe(w, n - i)
      invariant forall j :: 0 <= j < i ==> buf[at + j] == b[j]
      invariant forall j :: 0 <= j < buf.Length && !(at <= j < at + i) ==> buf[j] == old(buf[j])
    {
      assert b[i] == PutLe(w, n - i)[0] && b[i + 1..] == PutLe(w, n - i)[1..];
      buf[at + i] := (w % 256) as Byte;
      w := w / 256;
    }
  }
}
