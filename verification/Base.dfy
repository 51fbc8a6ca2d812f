/** Types shared by every component: bytes, status codes, little-endian integers. */
module Base {

  type Byte = bv8
  type Bytes = seq<Byte>

  datatype Option<+T> = None | Some(value: T)

  datatype Status = Ok | NotFound | Full | NoSpace | IOError | InvalidArgument | Corruption

  /** A request to the operating system failed, or a file ended early. */
  predicate Failure(s: Status) {
    s == IOError || s == Corruption
  }

  const TWO_32: nat := 0x1_0000_0000
  const TWO_64: nat := 0x1_0000_0000_0000_0000

  /** Unsigned machine words, kept as numbers so that layout arithmetic stays linear. */
  type U32 = n: nat | n < TWO_32
  type U64 = n: nat | n < TWO_64

  ghost function Pow256(n: nat): (p: nat)
    ensures p >= 1
  {
    if n == 0 then 1 else 256 * Pow256(n - 1)
  }

  lemma Widths()
    ensures Pow256(4) == TWO_32 && Pow256(8) == TWO_64
  {
    assert Pow256(2) == 256 * 256 * Pow256(0);
    assert Pow256(4) == 256 * 256 * Pow256(2);
    assert Pow256(6) == 256 * 256 * Pow256(4);
    assert Pow256(8) == 256 * 256 * Pow256(6);
  }

  /** `n` bytes of `v`, least significant first; higher bytes of `v` are dropped. */
  function PutLe(v: nat, n: nat): (b: Bytes)
    ensures |b| == n
  {
    if n == 0 then [] else [(v % 256) as Byte] + PutLe(v / 256, n - 1)
  }

  function GetLe(b: Bytes): (v: nat)
  {
    if b == [] then 0 else b[0] as nat + 256 * GetLe(b[1..])
  }

  lemma ByteIsNumber(b: Byte)
    ensures (b as nat) < 256 && (b as nat) as Byte == b
  {
  }

  lemma NextByte(b: Byte)
    requires b as nat < 255
    ensures (b + 1) as nat == b as nat + 1
  {
  }

  lemma {:induction false} ByteFor(n: nat) returns (b: Byte)
    requires n < 256
    ensures b as nat == n
  {
    if n == 0 {
      b := 0;
    } else {
      var c := ByteFor(n - 1);
      NextByte(c);
      b := c + 1;
    }
  }

  lemma ByteRoundTrip(n: nat)
    requires n < 256
    ensures (n as Byte) as nat == n
  {
    var b := ByteFor(n);
    ByteIsNumber(b);
  }

  /** Writing a number that fits and reading it back returns the number. */
  lemma {:induction false} LeRoundTrip(v: nat, n: nat)
    requires v < Pow256(n)
    ensures GetLe(PutLe(v, n)) == v
  {
    if n > 0 {
      ByteRoundTrip(v % 256);
      LeRoundTrip(v / 256, n - 1);
      assert PutLe(v, n)[1..] == PutLe(v / 256, n - 1);
    }
  }

  /** Every byte string is the encoding of exactly the number it reads as. */
  lemma {:induction false} LeReadWrite(b: Bytes)
    ensures GetLe(b) < Pow256(|b|)
    ensures PutLe(GetLe(b), |b|) == b
  {
    if b != [] {
      LeReadWrite(b[1..]);
      var rest := GetLe(b[1..]);
      ByteIsNumber(b[0]);
      LowAndRest(b[0] as nat, rest);
    }
  }

  lemma LowAndRest(low: nat, rest: nat)
    requires low < 256
    ensures (low + 256 * rest) % 256 == low && (low + 256 * rest) / 256 == rest
    ensures forall p: nat :: rest < p ==> low + 256 * rest < 256 * p
  {
  }
}
