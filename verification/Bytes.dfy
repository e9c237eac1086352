/** Byte slices and fixed-width integers, little and big endian. */
module Bytes {
  import opened Results

  type byte = x: int | 0 <= x < 256
  type bytes = seq<byte>

  /** data[pos : pos+n], or the panic of a slice expression out of range. */
  function Take(data: bytes, pos: nat, n: nat): Result<bytes> {
    if pos + n <= |data| then Ok(data[pos..pos + n]) else Err(OutOfRange)
  }

  /** xs[i], or the panic of an index out of range. */
  function At<T>(xs: seq<T>, i: nat): Result<T> {
    if i < |xs| then Ok(xs[i]) else Err(OutOfRange)
  }

  function Pow256(n: nat): (p: nat)
    ensures p > 0
  {
    if n == 0 then 1 else 256 * Pow256(n - 1)
  }

  function LE(b: bytes): nat {
    if b == [] then 0 else b[0] + 256 * LE(b[1..])
  }

  function BE(b: bytes): nat {
    if b == [] then 0 else 256 * BE(b[..|b| - 1]) + b[|b| - 1]
  }

  /** The low w bytes of n, least significant first. */
  function PutLE(n: nat, w: nat): (b: bytes)
    ensures |b| == w
  {
    if w == 0 then [] else [n % 256] + PutLE(n / 256, w - 1)
  }

  /** The low w bytes of n, most significant first. */
  function PutBE(n: nat, w: nat): (b: bytes)
    ensures |b| == w
  {
    if w == 0 then [] else PutBE(n / 256, w - 1) + [n % 256]
  }

  function Zeros(n: nat): (z: bytes)
    ensures |z| == n && forall i :: 0 <= i < n ==> z[i] == 0
  {
    seq(n, i => 0)
  }

  /** The int64 with the bits of the uint64 n. */
  function Signed64(n: nat): int
    requires n < Pow256(8)
  {
    if n < 0x8000_0000_0000_0000 then n else n - 0x1_0000_0000_0000_0000
  }

  lemma Pow256Values()
    ensures Pow256(0) == 1 && Pow256(1) == 0x100 && Pow256(2) == 0x1_0000 && Pow256(3) == 0x100_0000
    ensures Pow256(4) == 0x1_0000_0000 && Pow256(5) == 0x100_0000_0000 && Pow256(6) == 0x1_0000_0000_0000
    ensures Pow256(8) == 0x1_0000_0000_0000_0000
  {
    assert Pow256(2) == 256 * Pow256(1);
    assert Pow256(4) == 256 * Pow256(3);
    assert Pow256(6) == 256 * Pow256(5);
    assert Pow256(8) == 256 * Pow256(7);
  }

  lemma {:induction false} DivModStep(n: nat, m: nat)
    requires m > 0
    ensures n % (256 * m) == n % 256 + 256 * (n / 256 % m)
  {
    var q := n / 256;
    assert q == m * (q / m) + q % m;
    assert n == (256 * m) * (q / m) + (256 * (q % m) + n % 256);
    assert 256 * (q % m) + n % 256 < 256 * m;
    RemainderUnique(n, 256 * m, q / m, 256 * (q % m) + n % 256);
  }

  lemma RemainderUnique(n: int, d: int, q: int, r: int)
    requires 0 <= r < d && n == d * q + r
    ensures n / d == q && n % d == r
  {
    var k, m := n / d, n % d;
    assert n == d * k + m && 0 <= m < d;
    assert d * (k + 1) == d * k + d;
    assert d * (q + 1) == d * q + d;
    if k < q { MulMonotone(d, k + 1, q); }
    if q < k { MulMonotone(d, q + 1, k); }
  }

  lemma MulMonotone(d: int, a: int, b: int)
    requires 0 <= d && a <= b
    ensures d * a <= d * b
  {
  }

  /** Reading back w written bytes gives the value truncated to that width. */
  lemma {:induction false} LEPut(n: nat, w: nat)
    ensures LE(PutLE(n, w)) == n % Pow256(w)
    ensures n < Pow256(w) ==> LE(PutLE(n, w)) == n
  {
    if w > 0 {
      LEPut(n / 256, w - 1);
      if n < Pow256(w) { RemainderUnique(n, Pow256(w), 0, n); }
      DivModStep(n, Pow256(w - 1));
      assert PutLE(n, w)[1..] == PutLE(n / 256, w - 1);
    }
  }

  lemma {:induction false} BEPut(n: nat, w: nat)
    ensures BE(PutBE(n, w)) == n % Pow256(w)
    ensures n < Pow256(w) ==> BE(PutBE(n, w)) == n
  {
    if w > 0 {
      BEPut(n / 256, w - 1);
      if n < Pow256(w) { RemainderUnique(n, Pow256(w), 0, n); }
      DivModStep(n, Pow256(w - 1));
      assert PutBE(n, w)[..w - 1] == PutBE(n / 256, w - 1);
    }
  }

  /** Writing a two-part number writes the parts one after the other. */
  lemma {:induction false} PutBESplit(a: nat, w: nat, b: nat, k: nat)
    requires b < Pow256(k)
    ensures PutBE(a * Pow256(k) + b, w + k) == PutBE(a, w) + PutBE(b, k)
  {
    if k > 0 {
      var p := Pow256(k - 1);
      assert a * Pow256(k) == 256 * (a * p);
      RemainderUnique(a * Pow256(k) + b, 256, a * p + b / 256, b % 256);
      PutBESplit(a, w, b / 256, k - 1);
    }
  }

  lemma {:induction false} PutLEOfLE(b: bytes)
    ensures LE(b) < Pow256(|b|) && PutLE(LE(b), |b|) == b
  {
    if b != [] {
      PutLEOfLE(b[1..]);
      assert LE(b) / 256 == LE(b[1..]) && LE(b) % 256 == b[0];
      assert b == [b[0]] + b[1..];
    }
  }

  lemma {:induction false} BEBound(b: bytes)
    ensures BE(b) < Pow256(|b|)
  {
    if b != [] {
      BEBound(b[..|b| - 1]);
    }
  }

  lemma {:induction false} Pow256Grows(a: nat, b: nat)
    requires a <= b
    ensures Pow256(a) <= Pow256(b)
    decreases b
  {
    if a < b { Pow256Grows(a, b - 1); }
  }

  /** The least number of bytes that can tell n values apart. */
  function LeastBytes(n: nat): (k: nat)
    ensures n <= Pow256(k) && (k > 0 ==> Pow256(k - 1) < n)
  {
    if n <= 1 then 0 else 1 + LeastBytes((n + 255) / 256)
  }

  lemma LeastBytesIs(n: nat, k: nat)
    requires n <= Pow256(k) && (k > 0 ==> Pow256(k - 1) < n)
    ensures LeastBytes(n) == k
  {
    var l := LeastBytes(n);
    if l < k { Pow256Grows(l, k - 1); }
    if k < l { Pow256Grows(k, l - 1); }
  }

  lemma BEValues(b: bytes)
    ensures |b| == 1 ==> BE(b) == b[0]
    ensures |b| == 2 ==> BE(b) == (b[0] as int) * 0x100 + b[1]
    ensures |b| == 3 ==> BE(b) == (b[0] as int) * 0x1_0000 + (b[1] as int) * 0x100 + b[2]
  {
    if |b| == 1 {
      assert BE(b[..0]) == 0;
    } else if |b| == 2 {
      BEValues(b[..1]);
    } else if |b| == 3 {
      BEValues(b[..2]);
    }
  }

  /** What a decoder reads through Take does not depend on where the surrounding slice starts or ends. */
  lemma TakeShift(data: bytes, lo: nat, hi: nat, p: nat, n: nat)
    requires lo <= hi <= |data| && p + n <= hi - lo
    ensures Take(data[lo..hi], p, n) == Take(data, lo + p, n)
    ensures Take(data, lo + p, n).Ok?
  {
    SliceOfSlice(data, lo, hi, p, p + n);
  }

  /** Reads that succeed inside a slice see the same bytes in the data around it, and the reads that fit the
      slice are the same inside it. */
  lemma TakeWiden(data: bytes, lo: nat, hi: nat, p: nat, n: nat)
    requires lo <= hi <= |data|
    ensures Take(data[lo..hi], p, n).Ok? <==> p + n <= hi - lo
    ensures p + n <= hi - lo ==> Take(data[lo..hi], p, n) == Take(data, lo + p, n)
  {
    if p + n <= hi - lo {
      TakeShift(data, lo, hi, p, n);
    }
  }

  lemma SliceOfSlice<T>(s: seq<T>, lo: nat, hi: nat, a: nat, b: nat)
    requires lo <= hi <= |s| && a <= b <= hi - lo
    ensures s[lo..hi][a..b] == s[lo + a..lo + b]
  {
    var x, y := s[lo..hi][a..b], s[lo + a..lo + b];
    assert |x| == |y|;
    forall i | 0 <= i < |x|
      ensures x[i] == y[i]
    {
      assert s[lo..hi][a + i] == s[lo + a + i];
    }
  }

  /** A slice that is a concatenation, cut into its two parts. */
  lemma SplitSlice<T>(data: seq<T>, pos: nat, a: seq<T>, b: seq<T>)
    requires pos + |a| + |b| <= |data| && data[pos..pos + |a| + |b|] == a + b
    ensures data[pos..pos + |a|] == a
    ensures data[pos + |a|..pos + |a| + |b|] == b
  {
    SliceOfSlice(data, pos, pos + |a| + |b|, 0, |a|);
    SliceOfSlice(data, pos, pos + |a| + |b|, |a|, |a| + |b|);
    assert (a + b)[0..|a|] == a && (a + b)[|a|..|a| + |b|] == b;
  }
}
