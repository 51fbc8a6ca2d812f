/** The slot occupancy bitmap: bit `i % 8` of byte `i / 8` stands for slot `i`. */
module Bitmap {
  import opened Base

  function Mask(k: nat): Byte
    requires k < 8
  {
    if k == 0 then 0x01 else if k == 1 then 0x02 else if k == 2 then 0x04 else if k == 3 then 0x08
    else if k == 4 then 0x10 else if k == 5 then 0x20 else if k == 6 then 0x40 else 0x80
  }

  predicate Has(x: Byte, k: nat)
    requires k < 8
  {
    x & Mask(k) != 0
  }

  function With(x: Byte, k: nat): Byte
    requires k < 8
  {
    x | Mask(k)
  }

  function Without(x: Byte, k: nat): Byte
    requires k < 8
  {
    x & !Mask(k)
  }

  lemma ByteBits(x: Byte, j: nat, k: nat)
    requires j < 8 && k < 8
    ensures Has(With(x, j), k) <==> j == k || Has(x, k)
    ensures Has(Without(x, j), k) <==> j != k && Has(x, k)
    ensures !Has(0, k)
  {
    MaskBits(x, Mask(j), Mask(k));
    hide Mask;
    DistinctMasks(j, k);
  }

  lemma DistinctMasks(j: nat, k: nat)
    requires j < 8 && k < 8
    ensures Mask(j) != 0
    ensures j != k ==> Mask(j) & Mask(k) == 0
  {
  }

  lemma MaskBits(x: Byte, m: Byte, n: Byte)
    ensures n != 0 && m == n ==> (x | m) & n != 0 && (x & !m) & n == 0
    ensures m & n == 0 ==> (x | m) & n == x & n && (x & !m) & n == x & n
    ensures 0 & n == 0
  {
  }

  predicate IsSet(b: Bytes, i: nat) {
    i / 8 < |b| && Has(b[i / 8], i % 8)
  }

  function Set(b: Bytes, i: nat): (r: Bytes)
    requires i / 8 < |b|
    ensures |r| == |b|
  {
    b[i / 8 := With(b[i / 8], i % 8)]
  }

  function Clear(b: Bytes, i: nat): (r: Bytes)
    requires i / 8 < |b|
    ensures |r| == |b|
  {
    b[i / 8 := Without(b[i / 8], i % 8)]
  }

  function Empty(n: nat): (r: Bytes)
    ensures |r| == n
  {
    seq(n, i => 0)
  }

  lemma SetAt(b: Bytes, i: nat, j: nat)
    requires i / 8 < |b|
    ensures IsSet(Set(b, i), j) <==> i == j || IsSet(b, j)
  {
    hide Has, With;
    ByteBits(b[i / 8], i % 8, j % 8);
    assert i == i / 8 * 8 + i % 8 && j == j / 8 * 8 + j % 8;
  }

  lemma ClearAt(b: Bytes, i: nat, j: nat)
    requires i / 8 < |b|
    ensures IsSet(Clear(b, i), j) <==> i != j && IsSet(b, j)
  {
    hide Has, Without;
    ByteBits(b[i / 8], i % 8, j % 8);
    assert i == i / 8 * 8 + i % 8 && j == j / 8 * 8 + j % 8;
  }

  lemma EmptyAt(n: nat, j: nat)
    ensures !IsSet(Empty(n), j)
  {
    hide Has;
    ByteBits(0, 0, j % 8);
  }

  lemma UndoByte(x: Byte, k: nat)
    requires k < 8
    ensures !Has(x, k) ==> Without(With(x, k), k) == x
    ensures Has(x, k) ==> With(Without(x, k), k) == x
  {
    SingleBit(k);
    UndoMask(x, Mask(k));
    hide Mask;
  }

  lemma SingleBit(k: nat)
    requires k < 8
    ensures Mask(k) & (Mask(k) - 1) == 0
  {
  }

  lemma UndoMask(x: Byte, m: Byte)
    requires m & (m - 1) == 0
    ensures x & m == 0 ==> (x | m) & !m == x
    ensures x & m != 0 ==> (x & !m) | m == x
  {
  }

  /** Clearing undoes setting a free slot, and setting undoes clearing an occupied one. */
  lemma Undo(b: Bytes, i: nat)
    requires i / 8 < |b|
    ensures !IsSet(b, i) ==> Clear(Set(b, i), i) == b
    ensures IsSet(b, i) ==> Set(Clear(b, i), i) == b
  {
    hide Has, With, Without;
    UndoByte(b[i / 8], i % 8);
  }

  /** The bitmap on disk after a flush that wrote only its first `k` bytes. */
  function Torn(before: Bytes, after: Bytes, k: nat): (r: Bytes)
    requires |before| == |after| && k <= |after|
    ensures |r| == |after|
  {
    after[..k] + before[k..]
  }

  lemma TornAt(before: Bytes, after: Bytes, k: nat, j: nat)
    requires |before| == |after| && k <= |after|
    ensures IsSet(Torn(before, after, k), j) == if j / 8 < k then IsSet(after, j) else IsSet(before, j)
  {
    hide Has;
  }

  /** Number of occupied slots below `n`. */
  function Count(b: Bytes, n: nat): (c: nat)
    ensures c <= n
  {
    if n == 0 then 0 else Count(b, n - 1) + (if IsSet(b, n - 1) then 1 else 0)
  }

  lemma {:induction false} CountSet(b: Bytes, i: nat, n: nat)
    requires i / 8 < |b| && !IsSet(b, i)
    ensures Count(Set(b, i), n) == Count(b, n) + (if i < n then 1 else 0)
    decreases n
  {
    hide IsSet, Set;
    if n > 0 {
      CountSet(b, i, n - 1);
      SetAt(b, i, n - 1);
    }
  }

  lemma {:induction false} CountClear(b: Bytes, i: nat, n: nat)
    requires i / 8 < |b| && IsSet(b, i)
    ensures Count(Clear(b, i), n) == Count(b, n) - (if i < n then 1 else 0)
    decreases n
  {
    hide IsSet, Clear;
    if n > 0 {
      CountClear(b, i, n - 1);
      ClearAt(b, i, n - 1);
    }
  }

  lemma {:induction false} CountNone(b: Bytes, n: nat)
    requires forall i :: 0 <= i < n ==> !IsSet(b, i)
    ensures Count(b, n) == 0
    decreases n
  {
    hide IsSet;
    if n > 0 {
      CountNone(b, n - 1);
    }
  }

  /** Slots at or past `m` that are all free do not change the count. */
  lemma {:induction false} CountBeyond(b: Bytes, m: nat, n: nat)
    requires m <= n
    requires forall i :: m <= i < n ==> !IsSet(b, i)
    ensures Count(b, n) == Count(b, m)
    decreases n
  {
    hide IsSet;
    if m < n {
      CountBeyond(b, m, n - 1);
    }
  }
}
