/** Bitmaps over byte slices: bit i is bit i%8 of byte i/8. */
module Bitmaps {
  import opened Results
  import opened Bytes

  datatype Bitmap = Bitmap(data: bytes, count: nat)

  const NO_BITMAP := Bitmap([], 0)

  /** The least number of bytes that hold count bits. */
  function ByteSize(count: nat): (n: nat)
    ensures 8 * (n - 1) < count <= 8 * n
  {
    (count + 7) / 8
  }

  /** The bitmap's slice has exactly the bytes its count needs. */
  predicate Sized(b: Bitmap) {
    |b.data| == ByteSize(b.count)
  }

  function NewBitmap(data: bytes, pos: nat, count: nat): Result<(Bitmap, nat)> {
    var d :- Take(data, pos, ByteSize(count));
    Ok((Bitmap(d, count), pos + ByteSize(count)))
  }

  /** x & (1 << k) > 0 */
  predicate BitOf(x: nat, k: nat) {
    if k == 0 then x % 2 == 1 else BitOf(x / 2, k - 1)
  }

  function Bit(b: Bitmap, index: nat): Result<bool> {
    var x :- At(b.data, index / 8);
    Ok(BitOf(x, index % 8))
  }

  function Pow2(n: nat): (p: nat)
    ensures p > 0
  {
    if n == 0 then 1 else 2 * Pow2(n - 1)
  }

  /** x | (1 << k) or, to clear the bit, x & (0xff - (1 << k)); no wider than x, for a bit k within its width w. */
  function WithBit(x: nat, k: nat, value: bool, w: nat): (y: nat)
    requires k < w && x < Pow2(w)
    ensures y < Pow2(w)
  {
    if k == 0 then x / 2 * 2 + if value then 1 else 0
    else 2 * WithBit(x / 2, k - 1, value, w - 1) + x % 2
  }

  function SetInByte(x: byte, k: nat, value: bool): byte
    requires k < 8
  {
    WithBit(x, k, value, 8)
  }

  function With(b: Bitmap, index: nat, value: bool): Result<Bitmap> {
    var x :- At(b.data, index / 8);
    Ok(b.(data := b.data[index / 8 := SetInByte(x, index % 8, value)]))
  }

  /** How many of the first n bits are set. */
  function CountBelow(b: Bitmap, n: nat): (c: nat)
    requires n <= 8 * |b.data|
    ensures c <= n
  {
    if n == 0 then 0 else CountBelow(b, n - 1) + if Bit(b, n - 1) == Ok(true) then 1 else 0
  }

  function BitCount(b: Bitmap): (c: nat)
    requires Sized(b)
    ensures c <= b.count
  {
    CountBelow(b, b.count)
  }

  method CountBits(b: Bitmap) returns (sum: nat)
    requires Sized(b)
    ensures sum == BitCount(b)
  {
    sum := 0;
    for i := 0 to b.count
      invariant sum == CountBelow(b, i)
    {
      var bit := Bit(b, i);
      if bit.value {
        sum := sum + 1;
      }
    }
  }

  /** Sets or clears a bit of the slice in place. */
  method Set(data: array<byte>, count: nat, index: nat, value: bool)
    requires index / 8 < data.Length
    modifies data
    ensures Ok(Bitmap(data[..], count)) == With(Bitmap(old(data[..]), count), index, value)
  {
    var byteIndex := index / 8;
    data[byteIndex] := SetInByte(data[byteIndex], index % 8, value);
  }

  lemma {:induction false} BitOfIs(x: nat, k: nat)
    ensures BitOf(x, k) <==> x / Pow2(k) % 2 == 1
  {
    if k > 0 {
      BitOfIs(x / 2, k - 1);
      HalfThenDivide(x, Pow2(k - 1));
    }
  }

  lemma HalfThenDivide(x: nat, p: nat)
    requires p > 0
    ensures x / 2 / p == x / (2 * p)
  {
    var h := x / 2;
    assert h == p * (h / p) + h % p;
    assert x == 2 * p * (h / p) + (2 * (h % p) + x % 2);
    assert 2 * p * (h / p) == (2 * p) * (h / p);
    RemainderUnique(x, 2 * p, h / p, 2 * (h % p) + x % 2);
  }

  /** Bit i is the binary digit of weight 2^(i mod 8) in byte i / 8. */
  lemma BitIsBinaryDigit(b: Bitmap, i: nat)
    requires i / 8 < |b.data|
    ensures Bit(b, i) == Ok(b.data[i / 8] / Pow2(i % 8) % 2 == 1)
  {
    hide BitOf, Pow2;
    BitOfIs(b.data[i / 8], i % 8);
  }

  lemma {:induction false} WithBitReads(x: nat, k: nat, value: bool, w: nat, j: nat)
    requires k < w && x < Pow2(w)
    ensures BitOf(WithBit(x, k, value, w), j) == if j == k then value else BitOf(x, j)
  {
    if k > 0 && j > 0 {
      WithBitReads(x / 2, k - 1, value, w - 1, j - 1);
    }
  }

  /** Set changes the bit it names and no other. */
  lemma SetThenBit(b: Bitmap, index: nat, value: bool, j: nat)
    requires index / 8 < |b.data| && j / 8 < |b.data|
    ensures var w := With(b, index, value);
            w.Ok? && Bit(w.value, j) == if j == index then Ok(value) else Bit(b, j)
  {
    WithBitReads(b.data[index / 8], index % 8, value, 8, j % 8);
  }

  /** ... and so moves the bit count by exactly that bit. */
  lemma {:induction false} SetThenCount(b: Bitmap, index: nat, value: bool, n: nat)
    requires index / 8 < |b.data| && n <= 8 * |b.data|
    ensures var w := With(b, index, value);
            w.Ok? && CountBelow(w.value, n) == CountBelow(b, n)
            + (if index < n && value then 1 else 0) - (if index < n && Bit(b, index) == Ok(true) then 1 else 0)
  {
    if n > 0 {
      SetThenCount(b, index, value, n - 1);
      SetThenBit(b, index, value, n - 1);
    }
  }
}
