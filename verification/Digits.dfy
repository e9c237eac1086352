/** Decimal text: strconv's unsigned and signed printing, fmt's padded integers, and the
    dump package's own conversions. */
module Digits {
  import opened Bytes

  function Pow10(n: nat): (p: nat)
    ensures p > 0
  {
    if n == 0 then 1 else 10 * Pow10(n - 1)
  }

  /** The canonical decimal digits of n. */
  function Decimal(n: nat): (b: bytes)
    ensures |b| > 0
  {
    if n < 10 then [48 + n] else Decimal(n / 10) + [48 + n % 10]
  }

  /** Exactly w digits, the number taken modulo 10^w. */
  function Fixed(n: nat, w: nat): (b: bytes)
    ensures |b| == w
  {
    if w == 0 then [] else Fixed(n / 10, w - 1) + [48 + n % 10]
  }

  predicate AllDigits(b: bytes) {
    forall i :: 0 <= i < |b| ==> 48 <= b[i] <= 57
  }

  function Value(b: bytes): nat
    requires AllDigits(b)
  {
    if b == [] then 0 else 10 * Value(b[..|b| - 1]) + (b[|b| - 1] - 48)
  }

  function Repeat(c: byte, n: nat): (b: bytes)
    ensures |b| == n && forall i :: 0 <= i < n ==> b[i] == c
  {
    seq(n, i => c)
  }

  function PadLeft(c: byte, b: bytes, w: nat): bytes {
    if |b| < w then Repeat(c, w - |b|) + b else b
  }

  /** strconv.AppendInt */
  function SignedDecimal(n: int): bytes {
    if n < 0 then [45] + Decimal(-n) else Decimal(n)
  }

  /** fmt's %0wd: the sign counts towards the width. */
  function ZeroPadded(n: int, w: nat): bytes {
    if n < 0 then [45] + PadLeft(48, Decimal(-n), if w == 0 then 0 else w - 1) else PadLeft(48, Decimal(n), w)
  }

  /** fmt's %wd for a number that is not negative. */
  function BlankPadded(n: nat, w: nat): bytes {
    PadLeft(32, Decimal(n), w)
  }

  // ---------- canonical form ----------

  predicate Canonical(b: bytes) {
    b != [] && AllDigits(b) && (|b| > 1 ==> b[0] != 48)
  }

  /** Decimal is the canonical text of its number ... */
  lemma {:induction false} DecimalIsCanonical(n: nat)
    ensures Canonical(Decimal(n)) && Value(Decimal(n)) == n && (n > 0 ==> Decimal(n)[0] != 48)
  {
    var d := Decimal(n);
    if n >= 10 {
      DecimalIsCanonical(n / 10);
      assert d[..|d| - 1] == Decimal(n / 10);
    } else {
      assert d[..0] == [];
    }
  }

  /** ... and a canonical text is the Decimal of its value. */
  lemma {:induction false} CanonicalIsDecimal(b: bytes)
    requires Canonical(b)
    ensures Decimal(Value(b)) == b
  {
    var front := b[..|b| - 1];
    if |b| > 1 {
      CanonicalIsDecimal(front);
      DecimalIsCanonical(0);
      assert b == front + [b[|b| - 1]];
      assert Decimal(0) == [48];
    } else {
      assert Value(front) == 0;
    }
  }

  lemma {:induction false} FixedValue(n: nat, w: nat)
    ensures AllDigits(Fixed(n, w)) && (n < Pow10(w) ==> Value(Fixed(n, w)) == n)
  {
    if w > 0 {
      FixedValue(n / 10, w - 1);
      assert Fixed(n, w)[..w - 1] == Fixed(n / 10, w - 1);
    }
  }

  /** Fixed width is the canonical digits padded with zeros. */
  lemma {:induction false} PaddedIsFixed(n: nat, w: nat)
    requires w > 0 && n < Pow10(w)
    ensures PadLeft(48, Decimal(n), w) == Fixed(n, w) && |Decimal(n)| <= w
  {
    if w == 1 {
      assert Pow10(1) == 10;
      assert Fixed(n / 10, 0) == [];
    } else if n < 10 {
      PaddedIsFixed(0, w - 1);
      assert Decimal(0) == [48];
      assert PadLeft(48, Decimal(0), w - 1) == Repeat(48, w - 1);
    } else {
      PaddedIsFixed(n / 10, w - 1);
    }
  }

  /** Appending a group of w digits to a positive number. */
  lemma {:induction false} DecimalGroup(hi: nat, lo: nat, w: nat)
    requires hi > 0 && lo < Pow10(w)
    ensures Decimal(hi * Pow10(w) + lo) == Decimal(hi) + Fixed(lo, w)
  {
    if w > 0 {
      SplitGroup(hi, lo, w);
      DecimalGroup(hi, lo / 10, w - 1);
      assert hi * Pow10(w) + lo >= 10 by { MulMonotone(Pow10(w), 1, hi); assert Pow10(w) >= 10; }
    }
  }

  lemma {:induction false} FixedGroup(hi: nat, v: nat, lo: nat, w: nat)
    requires lo < Pow10(w)
    ensures Fixed(hi * Pow10(w) + lo, v + w) == Fixed(hi, v) + Fixed(lo, w)
  {
    if w > 0 {
      SplitGroup(hi, lo, w);
      FixedGroup(hi, v, lo / 10, w - 1);
    }
  }

  lemma SplitGroup(hi: nat, lo: nat, w: nat)
    requires w > 0 && lo < Pow10(w)
    ensures (hi * Pow10(w) + lo) / 10 == hi * Pow10(w - 1) + lo / 10
    ensures (hi * Pow10(w) + lo) % 10 == lo % 10
    ensures lo / 10 < Pow10(w - 1)
  {
    var p := Pow10(w - 1);
    assert hi * Pow10(w) == 10 * (hi * p);
    RemainderUnique(hi * Pow10(w) + lo, 10, hi * p + lo / 10, lo % 10);
  }

  // ---------- uint64ToString and stringToInt ----------

  lemma Pow10Bound()
    ensures Pow256(8) < Pow10(20)
  {
    Pow256Values();
    assert Pow10(4) == 10000;
    assert Pow10(8) == 10000 * Pow10(4);
    assert Pow10(12) == 10000 * Pow10(8);
    assert Pow10(16) == 10000 * Pow10(12);
    assert Pow10(20) == 10000 * Pow10(16);
  }

  method PutAt(a: array<byte>, i: nat, x: byte)
    requires i < a.Length
    modifies a
    ensures a[i..] == [x] + old(a[i + 1..])
  {
    a[i] := x;
  }

  lemma LastDigit(n: nat, tail: bytes)
    requires n >= 10
    ensures Decimal(n) + tail == Decimal(n / 10) + ([48 + n % 10] + tail)
  {
  }

  lemma FirstDigit(n: nat, tail: bytes)
    requires n < 10
    ensures Decimal(n) + tail == [48 + n] + tail
  {
  }

  /** A number of more than one digit leaves room for the others. */
  lemma DigitsLeft(n: nat, i: nat)
    requires 10 <= n < Pow10(i)
    ensures i >= 2 && n / 10 < Pow10(i - 1)
  {
    assert Pow10(1) == 10;
  }

  /** The 20-byte array never overflows, and the text is the canonical one. */
  method Uint64ToString(n0: nat) returns (s: bytes)
    requires n0 < Pow256(8)
    ensures s == Decimal(n0)
  {
    hide Decimal, Pow10, Pow256;
    Pow10Bound();
    var a := new byte[20](i => 0);
    var i: nat := a.Length;
    var n: nat := n0;
    while n >= 10
      invariant 1 <= i <= 20
      invariant n < Pow10(i)
      invariant Decimal(n0) == Decimal(n) + a[i..]
    {
      DigitsLeft(n, i);
      LastDigit(n, a[i..]);
      i := i - 1;
      var q: nat := n / 10;
      PutAt(a, i, (n - q * 10) % 256 + 0x30);
      n := q;
    }
    i := i - 1;
    FirstDigit(n, a[i + 1..]);
    PutAt(a, i, n + 0x30);
    s := a[i..];
  }

  /** Go's wrap-around of a signed 64-bit int. */
  function Wrap64(x: int): int {
    (x + 0x8000_0000_0000_0000) % 0x1_0000_0000_0000_0000 - 0x8000_0000_0000_0000
  }

  function StringToIntSpec(b: bytes): int {
    if b == [] then 0
    else Wrap64(Wrap64(StringToIntSpec(b[..|b| - 1]) * 10) + ((b[|b| - 1] as int) - 0x30) % 256)
  }

  method StringToInt(b: bytes) returns (val: int)
    ensures val == StringToIntSpec(b)
  {
    val := 0;
    for i := 0 to |b|
      invariant val == StringToIntSpec(b[..i])
    {
      assert b[..i + 1][..i] == b[..i];
      val := Wrap64(val * 10);
      val := Wrap64(val + ((b[i] as int) - 0x30) % 256);
    }
    assert b[..|b|] == b;
  }

  lemma WrapStep(v: int, d: nat)
    ensures Wrap64(Wrap64(Wrap64(v) * 10) + d) == Wrap64(v * 10 + d)
  {
    var k := (v + 0x8000_0000_0000_0000) / 0x1_0000_0000_0000_0000;
    assert Wrap64(v) == v - k * 0x1_0000_0000_0000_0000;
    WrapShift(v * 10, -10 * k);
    WrapSum(v * 10, d);
  }

  lemma WrapShift(v: int, k: int)
    ensures Wrap64(v + k * 0x1_0000_0000_0000_0000) == Wrap64(v)
  {
  }

  lemma WrapSum(v: int, d: int)
    ensures Wrap64(Wrap64(v) + d) == Wrap64(v + d)
  {
    var k := (v + 0x8000_0000_0000_0000) / 0x1_0000_0000_0000_0000;
    assert Wrap64(v) == v - k * 0x1_0000_0000_0000_0000;
    WrapShift(v + d, -k);
  }

  /** The numbers of a signed 64-bit int are those that stay what they are. */
  lemma WrapSmall(x: int)
    ensures Wrap64(x) == x <==> -0x8000_0000_0000_0000 <= x < 0x8000_0000_0000_0000
  {
  }

  lemma {:induction false} StringToIntWraps(b: bytes)
    requires AllDigits(b)
    ensures StringToIntSpec(b) == Wrap64(Value(b))
  {
    hide Wrap64;
    if b == [] {
      assert Wrap64(0) == 0 by { WrapSmall(0); }
    } else {
      StringToIntWraps(b[..|b| - 1]);
      WrapStep(Value(b[..|b| - 1]), b[|b| - 1] - 48);
    }
  }

  /** The two conversions invert each other exactly on the numbers of a signed 64-bit int. */
  lemma {:induction false} PrintedNumberReadsBack(n: nat)
    requires n < Pow256(8)
    ensures StringToIntSpec(Decimal(n)) == n <==> n < 0x8000_0000_0000_0000
  {
    hide Decimal, Wrap64, StringToIntSpec, Value;
    DecimalIsCanonical(n);
    StringToIntWraps(Decimal(n));
    WrapSmall(n);
  }
}
