/** Date and time cells. */
module TimeCells {
  import opened Results
  import opened Bytes
  import opened Digits

  const DASH: byte := 45
  const BLANK: byte := 32
  const COLON: byte := 58
  const DOT: byte := 46

  function Clock(hour: int, minute: int, second: int): bytes {
    ZeroPadded(hour, 2) + [COLON] + ZeroPadded(minute, 2) + [COLON] + ZeroPadded(second, 2)
  }

  function Calendar(year: nat, month: nat, day: nat): bytes {
    ZeroPadded(year, 4) + [DASH] + ZeroPadded(month, 2) + [DASH] + ZeroPadded(day, 2)
  }

  function DateText(v: nat): bytes {
    Calendar(v / 512, v / 32 % 16, v % 32)
  }

  /** The old TIME format: a signed 24-bit hhmmss. A negative one keeps its sign only in the hours. */
  function OldTimeText(v: nat): bytes {
    if v / 0x80_0000 % 2 == 1 then
      var a := 0x100_0000 - v % 0x100_0000;
      Clock(-(a / 10000), a % 10000 / 100, a % 100)
    else Clock(v / 10000, v % 10000 / 100, v % 100)
  }

  function OldDateTimeText(v: nat): bytes {
    var d, t := v / 1000000, v % 1000000;
    Calendar(d / 10000, d % 10000 / 100, d % 100) + [BLANK] + Clock(t / 10000, t % 10000 / 100, t % 100)
  }

  /** How many bytes hold a fraction of m digits. */
  function FracBytes(m: nat): nat {
    if m <= 6 then (m + 1) / 2 else 0
  }

  /** The digits shown for stored fraction f: an odd number of digits drops the padding digit. */
  function FracDigits(f: nat, m: nat): bytes {
    if 1 <= m <= 6 then [DOT] + ZeroPadded(if m % 2 == 1 then f / 10 else f, m) else []
  }

  /** Fraction text and length of TIMESTAMP2 and DATETIME2; beyond six digits there is none. */
  function Fraction(data: bytes, pos: nat, m: nat): Result<(bytes, nat)> {
    if 1 <= m <= 6 then
      var b :- Take(data, pos, FracBytes(m));
      Ok((FracDigits(BE(b), m), FracBytes(m)))
    else Ok(([], 0))
  }

  // ---------- DATETIME2 ----------

  datatype DateTime = DateTime(year: nat, month: nat, day: nat, hour: nat, minute: nat, second: nat)

  /** The fields of a stored 40-bit value; the bias is subtracted in uint64 arithmetic. */
  function UnpackDateTime(stored: nat): DateTime {
    var ymdhms := (stored - 0x80_0000_0000) % 0x1_0000_0000_0000_0000;
    var ymd, hms := ymdhms / 0x2_0000, ymdhms % 0x2_0000;
    var ym := ymd / 32;
    DateTime(ym / 13, ym % 13, ymd % 32, hms / 4096, hms / 64 % 64, hms % 64)
  }

  function DateTimeText(t: DateTime): bytes {
    Calendar(t.year, t.month, t.day) + [BLANK] + Clock(t.hour, t.minute, t.second)
  }

  function StoredDateTimeText(stored: nat): bytes {
    DateTimeText(UnpackDateTime(stored))
  }

  /** A big-endian number of w bytes, shown as text, and its fraction. */
  function WithFraction(data: bytes, pos: nat, m: nat, w: nat, show: nat -> bytes): Result<(bytes, nat)> {
    var b :- Take(data, pos, w);
    var fraction :- Fraction(data, pos + w, m);
    Ok((show(BE(b)) + fraction.0, w + fraction.1))
  }

  function DateTime2Cell(data: bytes, pos: nat, m: nat): Result<(bytes, nat)> {
    WithFraction(data, pos, m, 5, StoredDateTimeText)
  }

  // ---------- TIME2 ----------

  datatype SignedTime = SignedTime(negative: bool, hms: nat, frac: nat)

  /** The sign, and the magnitudes after the borrow between the two parts of a negative value. */
  function Borrow(stored: nat, frac: nat, k: nat): SignedTime
    requires frac < Pow256(k)
  {
    var hms := stored - 0x80_0000;
    if hms >= 0 then SignedTime(false, hms, frac)
    else if frac != 0 then SignedTime(true, -hms - 1, Pow256(k) - frac)
    else SignedTime(true, -hms, frac)
  }

  function TimeText(t: SignedTime, m: nat): bytes {
    (if t.negative then [DASH] else [])
    + Clock(t.hms / 4096 % 1024, t.hms / 64 % 64, t.hms % 64)
    + FracDigits(t.frac, m)
  }

  /** The length counts the fraction bytes of any metadata, though none beyond six digits are read. */
  function Time2Cell(data: bytes, pos: nat, m: nat): Result<(bytes, nat)> {
    var b :- Take(data, pos, 3);
    var f :- Take(data, pos + 3, FracBytes(m));
    BEBound(f);
    Ok((TimeText(Borrow(BE(b), BE(f), FracBytes(m)), m), 3 + (m + 1) / 2))
  }

  /** A decoder's result in a slice and in the data around it: success in the slice is the same success outside,
      and success outside, over a length that fits the room left in the slice, is the same inside. */
  predicate SameCell<T(==)>(inside: Result<(T, nat)>, outside: Result<(T, nat)>, room: int) {
    && (inside.Ok? ==> outside == inside)
    && (outside.Ok? && outside.value.1 <= room ==> inside == outside)
  }

  lemma FractionShift(data: bytes, lo: nat, hi: nat, p: nat, m: nat)
    requires lo <= hi <= |data|
    ensures SameCell(Fraction(data[lo..hi], p, m), Fraction(data, lo + p, m), hi - lo - p)
  {
    TakeWiden(data, lo, hi, p, FracBytes(m));
  }

  lemma WithFractionShift(data: bytes, lo: nat, hi: nat, p: nat, m: nat, w: nat, show: nat -> bytes)
    requires lo <= hi <= |data|
    ensures SameCell(WithFraction(data[lo..hi], p, m, w, show), WithFraction(data, lo + p, m, w, show), hi - lo - p)
  {
    hide Fraction, BE, Take;
    TakeWiden(data, lo, hi, p, w);
    FractionShift(data, lo, hi, p + w, m);
  }

  lemma Time2Shift(data: bytes, lo: nat, hi: nat, p: nat, m: nat)
    requires lo <= hi <= |data|
    ensures SameCell(Time2Cell(data[lo..hi], p, m), Time2Cell(data, lo + p, m), hi - lo - p)
  {
    hide TimeText, BE, Borrow, FracBytes, Take;
    TakeWiden(data, lo, hi, p, 3);
    TakeWiden(data, lo, hi, p + 3, FracBytes(m));
    FracBytesAtMost(m);
  }

  lemma FracBytesAtMost(m: nat)
    ensures FracBytes(m) <= (m + 1) / 2
  {
  }

  // ---------- DATETIME2 inverts its packing ----------

  function PackDateTime(t: DateTime): nat {
    ((t.year * 13 + t.month) * 32 + t.day) * 0x2_0000 + (t.hour * 4096 + t.minute * 64 + t.second)
  }

  /** Month 0..12, day 0..31, and a clock that fits its bit fields; every MySQL value is one of these. */
  predicate Packable(t: DateTime) {
    t.year <= 9999 && t.month <= 12 && t.day <= 31 && t.hour < 32 && t.minute < 64 && t.second < 64
  }

  /** The packing fits below the bias bit, and the decoder returns exactly the packed fields. */
  lemma DateTimeRoundTrip(t: DateTime)
    requires Packable(t)
    ensures PackDateTime(t) < 0x80_0000_0000
    ensures UnpackDateTime(0x80_0000_0000 + PackDateTime(t)) == t
  {
    var ym := t.year * 13 + t.month;
    var ymd := ym * 32 + t.day;
    var hms := t.hour * 4096 + t.minute * 64 + t.second;
    var p := ymd * 0x2_0000 + hms;
    assert (0x80_0000_0000 + p - 0x80_0000_0000) % 0x1_0000_0000_0000_0000 == p;
    SplitYmdHms(ymd, hms);
    SplitYmd(t.year, t.month, t.day);
    SplitHms(t.hour, t.minute, t.second);
  }

  lemma SplitYmdHms(ymd: nat, hms: nat)
    requires hms < 0x2_0000
    ensures (ymd * 0x2_0000 + hms) / 0x2_0000 == ymd && (ymd * 0x2_0000 + hms) % 0x2_0000 == hms
  {
  }

  lemma SplitYmd(year: nat, month: nat, day: nat)
    requires month < 13 && day < 32
    ensures var ym := year * 13 + month;
            (ym * 32 + day) / 32 == ym && (ym * 32 + day) % 32 == day && ym / 13 == year && ym % 13 == month
  {
  }

  lemma SplitHms(hour: nat, minute: nat, second: nat)
    requires minute < 64 && second < 64
    ensures var hms := hour * 4096 + minute * 64 + second;
            hms / 4096 == hour && hms / 64 % 64 == minute && hms % 64 == second
  {
    var hms := hour * 4096 + minute * 64 + second;
    assert hms / 64 == hour * 64 + minute;
  }

  /** Conversely every stored value with the bias bit set is the packing of what the decoder returns. */
  lemma DateTimeUnpackPack(stored: nat)
    requires 0x80_0000_0000 <= stored < 0x100_0000_0000
    ensures 0x80_0000_0000 + PackDateTime(UnpackDateTime(stored)) == stored
  {
    var p := stored - 0x80_0000_0000;
    assert p % 0x1_0000_0000_0000_0000 == p;
    var ymd, hms := p / 0x2_0000, p % 0x2_0000;
    assert p == ymd * 0x2_0000 + hms;
    JoinParts(ymd / 32, 13);
    JoinParts(ymd, 32);
    JoinHms(hms);
  }

  lemma JoinParts(n: nat, d: nat)
    requires d == 13 || d == 32
    ensures n / d * d + n % d == n
  {
  }

  lemma JoinHms(hms: nat)
    ensures hms / 4096 * 4096 + hms / 64 % 64 * 64 + hms % 64 == hms
  {
    assert hms / 4096 == hms / 64 / 64;
    assert hms / 64 == hms / 64 / 64 * 64 + hms / 64 % 64;
  }

  /** A stored DATETIME2(m) cell decodes to its fields and its fraction, whatever follows it. */
  lemma DateTime2RoundTrip(t: DateTime, f: nat, m: nat, rest: bytes)
    requires Packable(t) && m <= 6 && f < Pow256(FracBytes(m))
    ensures var cell := PutBE(0x80_0000_0000 + PackDateTime(t), 5) + PutBE(f, FracBytes(m));
            DateTime2Cell(cell + rest, 0, m) == Ok((DateTimeText(t) + FracDigits(f, m), |cell|))
  {
    hide DateTimeText, FracDigits, UnpackDateTime, PackDateTime;
    DateTimeRoundTrip(t);
    Pow256Values();
    var n := 0x80_0000_0000 + PackDateTime(t);
    BEPut(n, 5);
    BEPut(f, FracBytes(m));
    var data := PutBE(n, 5) + PutBE(f, FracBytes(m)) + rest;
    assert data[0..5] == PutBE(n, 5);
    assert data[5..5 + FracBytes(m)] == PutBE(f, FracBytes(m));
    if m == 0 { assert FracDigits(f, 0) == [] by { NoFraction(f); } }
  }

  lemma NoFraction(f: nat)
    ensures FracDigits(f, 0) == []
  {
  }

  // ---------- TIME2: the borrow is a sign and a division ----------

  /** For every stored value: the sign is that of the biased value, and the parts after the borrow are
      quotient and remainder of its absolute value. */
  lemma BorrowIsDivMod(stored: nat, frac: nat, k: nat)
    requires frac < Pow256(k)
    ensures var biased := (stored - 0x80_0000) * Pow256(k) + frac;
            var t := Borrow(stored, frac, k);
            && (t.negative <==> biased < 0)
            && (if biased < 0 then -biased else biased) == t.hms * Pow256(k) + t.frac
            && t.frac < Pow256(k)
  {
    var p := Pow256(k);
    var hms := stored - 0x80_0000;
    if hms < 0 {
      MulMonotone(p, hms, -1);
      assert (-hms - 1) * p == -(hms * p) - p;
    } else {
      MulMonotone(p, 0, hms);
    }
  }

  /** Hour, minute and second put together are hms, exactly when the hour fits its ten bits. */
  lemma ClockRecomposes(hms: nat)
    ensures hms / 4096 % 1024 * 4096 + hms / 64 % 64 * 64 + hms % 64 == hms <==> hms / 4096 < 1024
  {
    JoinHms(hms);
  }

  /** The text shows the clock fields that hms was put together from. */
  lemma TimeTextFields(negative: bool, hour: nat, minute: nat, second: nat, frac: nat, m: nat)
    requires hour < 1024 && minute < 64 && second < 64
    ensures TimeText(SignedTime(negative, hour * 4096 + minute * 64 + second, frac), m)
            == (if negative then [DASH] else []) + Clock(hour, minute, second) + FracDigits(frac, m)
  {
    hide Clock, FracDigits;
    SplitHms(hour, minute, second);
  }

  /** The biased number MySQL stores for a TIME(m) value. */
  function BiasedTime(t: SignedTime, k: nat): int {
    0x80_0000 * Pow256(k) + (if t.negative then -(t.hms * Pow256(k) + t.frac) else t.hms * Pow256(k) + t.frac)
  }

  predicate Storable(t: SignedTime, k: nat) {
    t.hms < 0x80_0000 && t.frac < Pow256(k) && (t.negative ==> t.hms > 0 || t.frac > 0)
  }

  lemma BiasedTimeParts(t: SignedTime, k: nat) returns (stored: nat, frac: nat)
    requires Storable(t, k)
    ensures BiasedTime(t, k) == stored * Pow256(k) + frac >= 0 && frac < Pow256(k) && stored < 0x100_0000
    ensures Borrow(stored, frac, k) == t
  {
    var p := Pow256(k);
    MulMonotone(p, 0, 0x80_0000 - t.hms - 1);
    if !t.negative {
      stored, frac := 0x80_0000 + t.hms, t.frac;
      assert (0x80_0000 + t.hms) * p == 0x80_0000 * p + t.hms * p;
    } else if t.frac == 0 {
      stored, frac := 0x80_0000 - t.hms, 0;
      assert (0x80_0000 - t.hms) * p == 0x80_0000 * p - t.hms * p;
    } else {
      stored, frac := 0x80_0000 - t.hms - 1, p - t.frac;
      assert (0x80_0000 - t.hms - 1) * p == 0x80_0000 * p - t.hms * p - p;
    }
  }

  /** A stored TIME(m) cell decodes to the sign, clock and fraction it was made from. */
  lemma Time2RoundTrip(t: SignedTime, m: nat, rest: bytes)
    requires m <= 6 && Storable(t, FracBytes(m))
    ensures var k := FracBytes(m);
            BiasedTime(t, k) >= 0
            && var cell := PutBE(BiasedTime(t, k), 3 + k);
            Time2Cell(cell + rest, 0, m) == Ok((TimeText(t, m), |cell|))
  {
    hide TimeText, BiasedTime, Borrow, FracBytes, Take, BE, PutBE, Pow256;
    var k := FracBytes(m);
    var stored, frac := BiasedTimeParts(t, k);
    PutBESplit(stored, 3, frac, k);
    TwoParts(stored, frac, k, rest);
    FracBytesValue(m);
  }

  lemma FracBytesValue(m: nat)
    requires m <= 6
    ensures FracBytes(m) == (m + 1) / 2
  {
  }

  lemma TwoParts(stored: nat, frac: nat, k: nat, rest: bytes)
    requires stored < 0x100_0000 && frac < Pow256(k)
    ensures var data := PutBE(stored, 3) + PutBE(frac, k) + rest;
            var b, f := Take(data, 0, 3), Take(data, 3, k);
            b.Ok? && f.Ok? && BE(b.value) == stored && BE(f.value) == frac
  {
    BEPut(stored, 3);
    BEPut(frac, k);
    Pow256Values();
    var data := PutBE(stored, 3) + PutBE(frac, k) + rest;
    assert data[0..3] == PutBE(stored, 3);
    assert data[3..3 + k] == PutBE(frac, k);
  }
}
