/** Bytes on the wire and the unsigned big-endian integer fields of the
    upload frame (Python's `int.to_bytes(width, byteorder='big')`). */
module Binary {

  type Byte = b: int | 0 <= b < 0x100
  type Bytes = seq<Byte>

  /** 256 to the power `k`: the number of values `k` bytes can hold. */
  function Pow256(k: nat): (r: nat)
    ensures r > 0
  {
    if k == 0 then 1 else 0x100 * Pow256(k - 1)
  }

  /** The values a 4-byte field can carry. */
  const U32Limit: nat := 0x1_0000_0000

  lemma Pow256Four()
    ensures Pow256(4) == U32Limit
  {
  }

  /** `count` zero bytes, Python's `b'\x00' * count`. */
  function Zeros(count: nat): (r: Bytes)
    ensures |r| == count
    ensures forall i | 0 <= i < count :: r[i] == 0
  {
    seq(count, _ => 0)
  }

  /** The unsigned value of `b` read most significant byte first. */
  function FromBigEndian(b: Bytes): (n: nat)
    ensures n < Pow256(|b|)
  {
    if |b| == 0 then 0
    else
      var high := FromBigEndian(b[..|b| - 1]);
      assert high * 0x100 <= (Pow256(|b| - 1) - 1) * 0x100;
      high * 0x100 + b[|b| - 1]
  }

  /** `n` written as `width` bytes, most significant first. */
  function ToBigEndian(n: nat, width: nat): (b: Bytes)
    requires n < Pow256(width)
    ensures |b| == width
    ensures FromBigEndian(b) == n
    decreases width
  {
    if width == 0 then []
    else
      var b := ToBigEndian(n / 0x100, width - 1) + [n % 0x100];
      assert b[..|b| - 1] == ToBigEndian(n / 0x100, width - 1);
      b
  }

  /** Reading a field and writing it back at the same width gives the field. */
  lemma {:induction false} ToFromBigEndian(b: Bytes)
    ensures ToBigEndian(FromBigEndian(b), |b|) == b
  {
    if |b| > 0 {
      var front := b[..|b| - 1];
      var high := FromBigEndian(front);
      var n := FromBigEndian(b);
      assert n == high * 0x100 + b[|b| - 1];
      assert n / 0x100 == high && n % 0x100 == b[|b| - 1];
      ToFromBigEndian(front);
      assert b == front + [b[|b| - 1]];
    }
  }
}
