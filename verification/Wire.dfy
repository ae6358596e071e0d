/** Byte strings and the big-endian counts of the wire format. */
module Wire {
  type Byte = x: int | 0 <= x < 256
  type Bytes = seq<Byte>

  const U32_LIMIT := 0x1_0000_0000

  function U32(n: nat): (r: Bytes)
    requires n < U32_LIMIT
    ensures |r| == 4
  {
    [n / 0x100_0000, n / 0x1_0000 % 256, n / 0x100 % 256, n % 256]
  }

  function ReadU32(b: Bytes, offset: nat): (n: nat)
    requires offset + 4 <= |b|
    ensures n < U32_LIMIT
  {
    var x: int, y: int, z: int := b[offset], b[offset + 1], b[offset + 2];
    x * 0x100_0000 + y * 0x1_0000 + z * 0x100 + b[offset + 3]
  }

  lemma U32Splits(n: nat)
    requires n < U32_LIMIT
    ensures n == n / 0x100_0000 * 0x100_0000 + n / 0x1_0000 % 256 * 0x1_0000 + n / 0x100 % 256 * 0x100 + n % 256
  {
    assert n / 0x1_0000 == n / 0x100 / 256 && n / 0x100_0000 == n / 0x1_0000 / 256;
  }

  lemma ReadsBack(before: Bytes, n: nat, after: Bytes)
    requires n < U32_LIMIT
    ensures ReadU32(before + U32(n) + after, |before|) == n
  {
    U32Splits(n);
    var b := before + U32(n) + after;
    assert forall i :: 0 <= i < 4 ==> b[|before| + i] == U32(n)[i];
  }

  lemma WritesBack(b: Bytes, offset: nat)
    requires offset + 4 <= |b|
    ensures U32(ReadU32(b, offset)) == b[offset..offset + 4]
  {
    Digits(b[offset], b[offset + 1], b[offset + 2], b[offset + 3]);
  }

  lemma Digits(a: int, b: int, c: int, d: int)
    requires 0 <= a < 256 && 0 <= b < 256 && 0 <= c < 256 && 0 <= d < 256
    ensures U32(a * 0x100_0000 + b * 0x1_0000 + c * 0x100 + d) == [a, b, c, d]
  {
    var high, middle := a * 0x100 + b, a * 0x1_0000 + b * 0x100 + c;
    Shift(a, b);
    Shift(high, c);
    Shift(middle, d);
    var n := middle * 0x100 + d;
    assert n / 0x1_0000 == n / 0x100 / 0x100 && n / 0x100_0000 == n / 0x1_0000 / 0x100;
  }

  lemma Shift(q: nat, r: nat)
    requires r < 0x100
    ensures (q * 0x100 + r) / 0x100 == q && (q * 0x100 + r) % 0x100 == r
  {
  }

  function Concat(parts: seq<Bytes>): Bytes {
    if |parts| == 0 then [] else parts[0] + Concat(parts[1..])
  }

  lemma {:induction false} ConcatLength(parts: seq<Bytes>, size: nat)
    requires forall i :: 0 <= i < |parts| ==> |parts[i]| == size
    ensures |Concat(parts)| == |parts| * size
  {
    if |parts| > 0 {
      ConcatLength(parts[1..], size);
    }
  }

  lemma {:induction false} ProductIsNat(count: nat, size: nat)
    ensures 0 <= count * size
  {
    if count > 0 {
      ProductIsNat(count - 1, size);
      assert count * size == (count - 1) * size + size;
    }
  }

  lemma OneMore(count: nat, size: nat)
    requires count > 0
    ensures size <= count * size && count * size - size == (count - 1) * size
  {
    ProductIsNat(count - 1, size);
    assert count * size == (count - 1) * size + size;
  }

  /** Cuts a string of whole parts into them. */
  function Chunks(b: Bytes, count: nat, size: nat): (r: seq<Bytes>)
    requires |b| == count * size
    ensures |r| == count && forall i :: 0 <= i < count ==> |r[i]| == size
  {
    if count == 0 then []
    else
      OneMore(count, size);
      [b[..size]] + Chunks(b[size..], count - 1, size)
  }

  lemma {:induction false} ChunksJoin(b: Bytes, count: nat, size: nat)
    requires |b| == count * size
    ensures Concat(Chunks(b, count, size)) == b
  {
    if count > 0 {
      OneMore(count, size);
      ChunksJoin(b[size..], count - 1, size);
      assert Chunks(b, count, size)[1..] == Chunks(b[size..], count - 1, size);
    }
  }
}
