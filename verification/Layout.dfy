/**
 * Where bitmap and slots lie inside a segment.  Sizes are unbounded numbers here; `Fits` says
 * when the engine's 64-bit and 32-bit arithmetic neither wraps nor underflows.
 */
module Layout {
  import opened Base

  datatype Layout = Layout(slotSize: nat, totalSlots: nat, bitmapSize: nat)

  function Quotient(a: nat, b: nat): nat
    requires b > 0
  {
    a / b
  }

  function Align(n: nat, align: nat): (r: nat) {
    if align > 0 then Quotient(n + align - 1, align) * align else n
  }

  /** The first estimate: each slot costs its bytes and one bitmap bit. */
  function Estimate(segmentSize: nat, slotSize: nat): nat {
    Quotient(segmentSize * 8, 8 * slotSize + 1)
  }

  function BitmapSize(segmentSize: nat, slotSize: nat, align: nat): nat {
    Align((Estimate(segmentSize, slotSize) + 7) / 8, align)
  }

  predicate Fits(segmentSize: nat, slotSize: nat, align: nat) {
    slotSize > 0 && segmentSize * 8 < TWO_64 && Estimate(segmentSize, slotSize) < TWO_32 &&
    BitmapSize(segmentSize, slotSize, align) <= segmentSize
  }

  function Calculate(segmentSize: nat, slotSize: nat, align: nat): (l: Layout)
    requires Fits(segmentSize, slotSize, align)
  {
    var estimate := Estimate(segmentSize, slotSize);
    var bitmap := BitmapSize(segmentSize, slotSize, align);
    var room := Quotient(segmentSize - bitmap, slotSize);
    Layout(slotSize, if estimate <= room then estimate else room, bitmap)
  }

  function SlotOffset(l: Layout, slot: nat): nat {
    l.bitmapSize + slot * l.slotSize
  }

  lemma MulLe(a: nat, b: nat, c: nat)
    requires a <= b
    ensures a * c <= b * c
  {
  }

  lemma Distribute(a: nat, b: nat, c: nat)
    ensures (a + b) * c == a * c + b * c
  {
  }

  lemma Div(a: nat, b: nat)
    requires b > 0
    ensures Quotient(a, b) * b <= a < Quotient(a, b) * b + b
  {
  }

  lemma DivGe(a: nat, b: nat, q: nat)
    requires b > 0 && q * b <= a
    ensures q <= Quotient(a, b)
  {
    hide Quotient;
    Div(a, b);
    if q > Quotient(a, b) {
      Distribute(Quotient(a, b), 1, b);
      MulLe(Quotient(a, b) + 1, q, b);
    }
  }

  lemma AlignBounds(n: nat, align: nat)
    ensures n <= Align(n, align) <= n + (if align > 0 then align - 1 else 0)
  {
    hide Quotient;
    if align > 0 {
      Div(n + align - 1, align);
    }
  }

  lemma AlignIsMultiple(n: nat, align: nat)
    requires align > 0
    ensures Align(n, align) % align == 0
    ensures forall m: nat :: m % align == 0 && n <= m ==> Align(n, align) <= m
  {
    var q := Quotient(n + align - 1, align);
    Multiple(q, align);
    forall m: nat | m % align == 0 && n <= m
      ensures Align(n, align) <= m
    {
      var k := m / align;
      assert m == k * align;
      hide Quotient;
      Div(n + align - 1, align);
      if k < q {
        MulLe(k + 1, q, align);
        Distribute(k, 1, align);
      }
      MulLe(q, k, align);
    }
  }

  lemma Multiple(q: nat, align: nat)
    requires align > 0
    ensures q * align % align == 0
  {
    var x := q * align;
    var d := x / align;
    assert x == d * align + x % align;
    if q > d {
      MulLe(d + 1, q, align);
      Distribute(d, 1, align);
    } else if q < d {
      MulLe(q + 1, d, align);
      Distribute(q, 1, align);
    }
  }

  /** The bitmap area is the least aligned one with a bit for every slot of the first estimate. */
  lemma BitmapIsAligned(segmentSize: nat, slotSize: nat, align: nat, size: nat)
    requires Fits(segmentSize, slotSize, align)
    ensures var l, bits := Calculate(segmentSize, slotSize, align), Estimate(segmentSize, slotSize);
            bits <= 8 * l.bitmapSize && (align > 0 ==> l.bitmapSize % align == 0) &&
            (bits <= 8 * size && (align > 0 ==> size % align == 0) ==> l.bitmapSize <= size)
  {
    hide Quotient, Align, Estimate;
    var bytes := (Estimate(segmentSize, slotSize) + 7) / 8;
    AlignBounds(bytes, align);
    if align > 0 {
      AlignIsMultiple(bytes, align);
    }
    if Estimate(segmentSize, slotSize) <= 8 * size {
      assert bytes <= size;
    }
  }

  /** Every slot has its full size, behind the bitmap and inside the segment. */
  lemma SlotIsInside(segmentSize: nat, slotSize: nat, align: nat, i: nat)
    requires Fits(segmentSize, slotSize, align)
    requires i < Calculate(segmentSize, slotSize, align).totalSlots
    ensures var l := Calculate(segmentSize, slotSize, align);
            l.bitmapSize <= SlotOffset(l, i) && SlotOffset(l, i) + slotSize <= segmentSize
  {
    hide Quotient, Estimate, BitmapSize;
    var l := Calculate(segmentSize, slotSize, align);
    SlotEnd(segmentSize - l.bitmapSize, slotSize, i);
  }

  /** Two slots do not overlap. */
  lemma SlotsAreDisjoint(segmentSize: nat, slotSize: nat, align: nat, i: nat, j: nat)
    requires Fits(segmentSize, slotSize, align)
    requires i < j < Calculate(segmentSize, slotSize, align).totalSlots
    ensures var l := Calculate(segmentSize, slotSize, align); SlotOffset(l, i) + slotSize <= SlotOffset(l, j)
  {
    hide Quotient, Estimate, BitmapSize;
    SlotSpacing(slotSize, i, j);
  }

  lemma SlotEnd(space: nat, slotSize: nat, i: nat)
    requires slotSize > 0 && i < Quotient(space, slotSize)
    ensures i * slotSize + slotSize <= space
  {
    hide Quotient;
    Div(space, slotSize);
    MulLe(i + 1, Quotient(space, slotSize), slotSize);
    Distribute(i, 1, slotSize);
  }

  lemma SlotSpacing(slotSize: nat, i: nat, j: nat)
    requires i < j
    ensures i * slotSize + slotSize <= j * slotSize
  {
    MulLe(i + 1, j, slotSize);
    Distribute(i, 1, slotSize);
  }

  /** The bitmap has a bit for every slot. */
  lemma BitmapCoversSlots(segmentSize: nat, slotSize: nat, align: nat)
    requires Fits(segmentSize, slotSize, align)
    ensures var l := Calculate(segmentSize, slotSize, align); l.totalSlots <= 8 * l.bitmapSize
  {
    hide Quotient, Align, Estimate;
    AlignBounds((Estimate(segmentSize, slotSize) + 7) / 8, align);
  }

  /** `n` slots and an unaligned bitmap for them fit into the segment. */
  ghost predicate Holds(segmentSize: nat, slotSize: nat, n: nat) {
    (n + 7) / 8 + n * slotSize <= segmentSize
  }

  lemma EstimateIsUpperBound(segmentSize: nat, slotSize: nat, n: nat)
    requires Holds(segmentSize, slotSize, n)
    ensures n <= Estimate(segmentSize, slotSize)
  {
    hide Quotient;
    assert n <= (n + 7) / 8 * 8;
    assert n * (8 * slotSize + 1) == 8 * (n * slotSize) + n;
    DivGe(segmentSize * 8, 8 * slotSize + 1, n);
  }

  /** One slot fewer than the estimate always fits. */
  lemma EstimateAlmostHolds(segmentSize: nat, slotSize: nat)
    requires slotSize > 0 && Estimate(segmentSize, slotSize) > 0
    ensures (Estimate(segmentSize, slotSize) + 7) / 8 +
            (Estimate(segmentSize, slotSize) - 1) * slotSize <= segmentSize
  {
    hide Quotient;
    var t := Estimate(segmentSize, slotSize);
    Div(segmentSize * 8, 8 * slotSize + 1);
    assert t * (8 * slotSize + 1) == 8 * (t * slotSize) + t;
    assert (t - 1) * slotSize == t * slotSize - slotSize;
    assert 8 * ((t + 7) / 8) <= t + 7;
  }

  /** Without alignment padding the slot count is the largest that fits. */
  lemma UnalignedIsOptimal(segmentSize: nat, slotSize: nat, align: nat, n: nat)
    requires align <= 1 && Fits(segmentSize, slotSize, align)
    ensures var total := Calculate(segmentSize, slotSize, align).totalSlots;
            Holds(segmentSize, slotSize, total) &&
            (Holds(segmentSize, slotSize, n) ==> n <= total)
  {
    hide Quotient, Estimate, Align;
    var t, l := Estimate(segmentSize, slotSize), Calculate(segmentSize, slotSize, align);
    AlignBounds((t + 7) / 8, align);
    var space := segmentSize - l.bitmapSize;
    Div(space, slotSize);
    MulLe(l.totalSlots, Quotient(space, slotSize), slotSize);
    if Holds(segmentSize, slotSize, n) {
      EstimateIsUpperBound(segmentSize, slotSize, n);
      if l.totalSlots < t {
        EstimateAlmostHolds(segmentSize, slotSize);
        DivGe(space, slotSize, t - 1);
        if n == t {
          DivGe(space, slotSize, t);
        }
      }
    }
  }

  /** Alignment costs at most as many slots as the padding bytes can displace. */
  lemma AlignmentCost(segmentSize: nat, slotSize: nat, align: nat)
    requires align > 1 && Fits(segmentSize, slotSize, align) && Fits(segmentSize, slotSize, 1)
    ensures Calculate(segmentSize, slotSize, 1).totalSlots <=
            Calculate(segmentSize, slotSize, align).totalSlots + Quotient(align - 1 + slotSize - 1, slotSize)
  {
    hide Quotient, Estimate, Align;
    var t := Estimate(segmentSize, slotSize);
    var plain, aligned := Calculate(segmentSize, slotSize, 1), Calculate(segmentSize, slotSize, align);
    AlignBounds((t + 7) / 8, align);
    AlignBounds((t + 7) / 8, 1);
    LostSlots(segmentSize - plain.bitmapSize, segmentSize - aligned.bitmapSize, slotSize, align - 1);
  }

  lemma LostSlots(room: nat, rest: nat, slotSize: nat, padding: nat)
    requires slotSize > 0 && room <= rest + padding
    ensures Quotient(room, slotSize) <= Quotient(rest, slotSize) + Quotient(padding + slotSize - 1, slotSize)
  {
    hide Quotient;
    var q, lost := Quotient(room, slotSize), Quotient(padding + slotSize - 1, slotSize);
    Div(room, slotSize);
    Div(padding + slotSize - 1, slotSize);
    if q > lost {
      Distribute(q - lost, lost, slotSize);
      DivGe(rest, slotSize, q - lost);
    }
  }
}
