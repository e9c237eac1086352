/** Dates, times and decimals: what their cells decode to, digit by digit. */
module TemporalColumns {
  import opened Results
  import opened Bytes
  import opened Digits
  import opened TimeCells
  import opened DecimalCells
  import opened Cells
  import opened Columns

  // ---------- texts by position ----------

  /** w digits of n stand at pos. */
  predicate DigitsAt(t: bytes, pos: nat, w: nat, n: nat) {
    pos + w <= |t| && AllDigits(t[pos..pos + w]) && Value(t[pos..pos + w]) == n
  }

  /** yyyy-mm-dd */
  predicate IsDate(t: bytes, year: nat, month: nat, day: nat) {
    |t| == 10 && DigitsAt(t, 0, 4, year) && t[4] == 45 && DigitsAt(t, 5, 2, month) && t[7] == 45
    && DigitsAt(t, 8, 2, day)
  }

  /** hh:mm:ss, where the hour may have more than two digits. */
  predicate IsClock(t: bytes, hour: nat, minute: nat, second: nat) {
    |t| >= 8
    && var k := |t| - 6;
    DigitsAt(t, 0, k, hour) && (k > 2 ==> t[0] != 48) && t[k] == 58 && DigitsAt(t, k + 1, 2, minute) && t[k + 3] == 58
    && DigitsAt(t, k + 4, 2, second)
  }

  /** A point and m digits, or nothing. */
  predicate IsFraction(t: bytes, m: nat, frac: nat) {
    if m == 0 then t == [] else |t| == m + 1 && t[0] == 46 && DigitsAt(t, 1, m, frac)
  }

  predicate IsTimeOfDay(hour: nat, minute: nat, second: nat) {
    hour < 24 && minute < 60 && second < 60
  }

  lemma Padded(n: nat, w: nat)
    requires w > 0 && n < Pow10(w)
    ensures var t := ZeroPadded(n, w); |t| == w && AllDigits(t) && Value(t) == n
  {
    hide Decimal, Fixed, PadLeft, Pow10, Value, AllDigits;
    PaddedIsFixed(n, w);
    FixedValue(n, w);
  }

  lemma CalendarText(year: nat, month: nat, day: nat)
    requires year < 10000 && month < 100 && day < 100
    ensures IsDate(Calendar(year, month, day), year, month, day)
  {
    hide ZeroPadded, Value, AllDigits, Pow10;
    Pow10Table();
    Padded(year, 4);
    Padded(month, 2);
    Padded(day, 2);
    var t := Calendar(year, month, day);
    assert t[0..4] == ZeroPadded(year, 4) && t[5..7] == ZeroPadded(month, 2) && t[8..10] == ZeroPadded(day, 2);
  }

  /** At least two digits, and no leading zero beyond them. */
  lemma HourText(hour: nat)
    ensures var t := ZeroPadded(hour, 2);
            |t| >= 2 && AllDigits(t) && Value(t) == hour && (|t| > 2 ==> t[0] != 48)
  {
    if hour < 10 {
      hide Decimal, PadLeft, Value, AllDigits;
      Pow10Table();
      Padded(hour, 2);
    } else {
      assert |Decimal(hour)| >= 2;
      hide Decimal;
      DecimalIsCanonical(hour);
    }
  }

  lemma ClockText(hour: nat, minute: nat, second: nat)
    requires minute < 100 && second < 100
    ensures IsClock(Clock(hour, minute, second), hour, minute, second)
  {
    hide ZeroPadded, Value, AllDigits, Pow10;
    Pow10Table();
    HourText(hour);
    Padded(minute, 2);
    Padded(second, 2);
    var t := Clock(hour, minute, second);
    var k := |t| - 6;
    assert t[0..k] == ZeroPadded(hour, 2) && t[k + 1..k + 3] == ZeroPadded(minute, 2);
    assert t[k + 4..k + 6] == ZeroPadded(second, 2);
  }

  // ---------- fractions ----------

  /** A fraction of m digits as it is stored: in whole pairs of digits. */
  function StoredFraction(frac: nat, m: nat): nat {
    if m % 2 == 1 then 10 * frac else frac
  }

  lemma FractionText(frac: nat, m: nat)
    requires m <= 6 && frac < Pow10(m)
    ensures IsFraction(FracDigits(StoredFraction(frac, m), m), m, frac)
    ensures FracBytes(m) == (m + 1) / 2 && StoredFraction(frac, m) < Pow256((m + 1) / 2)
  {
    hide ZeroPadded, Value, AllDigits, Pow10, Pow256, StoredFraction;
    StoredFractionFits(frac, m);
    FracBytesValue(m);
    ShownFraction(frac, m);
    if m > 0 {
      hide FracDigits;
      Padded(frac, m);
      var t := FracDigits(StoredFraction(frac, m), m);
      assert t[1..1 + m] == ZeroPadded(frac, m);
    }
  }

  lemma ShownFraction(frac: nat, m: nat)
    requires m <= 6
    ensures FracDigits(StoredFraction(frac, m), m) == if m == 0 then [] else [46] + ZeroPadded(frac, m)
  {
    hide ZeroPadded;
  }

  lemma StoredFractionFits(frac: nat, m: nat)
    requires m <= 6 && frac < Pow10(m)
    ensures StoredFraction(frac, m) < Pow256((m + 1) / 2)
  {
    hide Pow10, Pow256;
    Pow10Table();
    Pow256Values();
    assert m == 0 || m == 1 || m == 2 || m == 3 || m == 4 || m == 5 || m == 6;
  }

  // ---------- the old formats ----------

  /** DATE: five bits for the day, four for the month, the rest for the year. */
  lemma DateDecodes(lib: Library, year: nat, month: nat, day: nat, unsigned: bool) returns (text: bytes)
    requires year < 10000 && month < 16 && day < 32
    ensures var cell := PutLE(year * 512 + month * 32 + day, 3);
            Decodes(lib, DateColumn, unsigned, cell, text) && Decodes(lib, NewDateColumn, unsigned, cell, text)
    ensures IsDate(text, year, month, day)
  {
    hide LE, PutLE, Calendar, Pow256, IsDate;
    var v := year * 512 + month * 32 + day;
    CalendarText(year, month, day);
    text := DateText(v);
    DateFields(year, month, day);
    Pow256Values();
    LEPut(v, 3);
    TakeAll(PutLE(v, 3));
  }

  lemma DateFields(year: nat, month: nat, day: nat)
    requires month < 16 && day < 32
    ensures DateText(year * 512 + month * 32 + day) == Calendar(year, month, day)
  {
    hide Calendar;
    var v := year * 512 + month * 32 + day;
    assert v / 32 == year * 16 + month;
  }

  /** Decimal digits hhmmss. */
  function TimeNumber(hour: nat, minute: nat, second: nat): nat {
    hour * 10000 + minute * 100 + second
  }

  lemma TimeNumberFields(hour: nat, minute: nat, second: nat)
    requires minute < 100 && second < 100
    ensures var v := TimeNumber(hour, minute, second);
            v / 10000 == hour && v % 10000 / 100 == minute && v % 100 == second
  {
    var v := TimeNumber(hour, minute, second);
    RemainderUnique(v, 10000, hour, minute * 100 + second);
    RemainderUnique(v % 10000, 100, minute, second);
    RemainderUnique(v, 100, hour * 100 + minute, second);
  }

  /** Old TIME: the number hhmmss in two's complement. A negative time shows its sign in front of the hour
      exactly if the hour is not zero. */
  lemma OldTimeDecodes(lib: Library, negative: bool, hour: nat, minute: nat, second: nat, unsigned: bool)
    returns (text: bytes)
    requires hour < 839 && minute < 60 && second < 60 && (negative ==> hour + minute + second > 0)
    ensures var v := TimeNumber(hour, minute, second);
            Decodes(lib, TimeColumn, unsigned, PutLE(if negative then Pow256(3) - v else v, 3), text)
    ensures if negative && hour > 0 then
              |text| > 6 && text[0] == 45 && text[1..|text| - 6] == Decimal(hour)
              && IsClock([48, 48] + text[|text| - 6..], 0, minute, second)
            else IsClock(text, hour, minute, second)
  {
    hide LE, PutLE, Clock, Pow256, IsClock, OldTimeText, Decimal;
    Pow256Values();
    var v := TimeNumber(hour, minute, second);
    var stored := if negative then Pow256(3) - v else v;
    text := OldTimeText(stored);
    LEPut(stored, 3);
    TakeAll(PutLE(stored, 3));
    OldTimeFields(negative, hour, minute, second);
    if negative && hour > 0 {
      NegativeClock(hour, minute, second);
    } else {
      ClockText(hour, minute, second);
    }
  }

  lemma OldTimeFields(negative: bool, hour: nat, minute: nat, second: nat)
    requires hour < 839 && minute < 60 && second < 60 && (negative ==> hour + minute + second > 0)
    ensures var v := TimeNumber(hour, minute, second);
            OldTimeText(if negative then 0x100_0000 - v else v)
            == Clock(if negative then -(hour as int) else hour, minute, second)
  {
    hide Clock, TimeNumber;
    TimeNumberFields(hour, minute, second);
    OldTimeSign(TimeNumber(hour, minute, second));
    assert TimeNumber(hour, minute, second) < 0x80_0000 && (negative ==> TimeNumber(hour, minute, second) > 0) by {
      TimeNumberSmall(hour, minute, second);
    }
  }

  lemma TimeNumberSmall(hour: nat, minute: nat, second: nat)
    requires hour < 839 && minute < 60 && second < 60
    ensures TimeNumber(hour, minute, second) < 0x80_0000
    ensures hour + minute + second > 0 ==> TimeNumber(hour, minute, second) > 0
  {
  }

  lemma OldTimeSign(v: nat)
    ensures v < 0x80_0000 ==> v / 0x80_0000 % 2 == 0
    ensures 0 < v < 0x80_0000 ==>
              var stored := 0x100_0000 - v; stored / 0x80_0000 % 2 == 1 && 0x100_0000 - stored % 0x100_0000 == v
  {
  }

  lemma NegativeClock(hour: nat, minute: nat, second: nat)
    requires hour > 0 && minute < 100 && second < 100
    ensures var text := Clock(-(hour as int), minute, second);
            |text| > 6 && text[0] == 45 && text[1..|text| - 6] == Decimal(hour)
            && IsClock([48, 48] + text[|text| - 6..], 0, minute, second)
  {
    hide Decimal, IsClock, ZeroPadded, Value, AllDigits, Pow10;
    ClockText(0, minute, second);
    ZeroHour();
    NegativeHour(hour);
    Pow10Table();
    Padded(minute, 2);
    Padded(second, 2);
    var tail := [COLON] + ZeroPadded(minute, 2) + [COLON] + ZeroPadded(second, 2);
    var text := Clock(-(hour as int), minute, second);
    assert text == [45] + Decimal(hour) + tail;
    assert Clock(0, minute, second) == [48, 48] + tail;
    hide Clock;
    assert text[|text| - 6..] == tail;
  }

  lemma NegativeHour(hour: nat)
    requires hour > 0
    ensures ZeroPadded(-(hour as int), 2) == [45] + Decimal(hour)
  {
  }

  lemma ZeroHour()
    ensures ZeroPadded(0, 2) == [48, 48]
  {
    assert Decimal(0) == [48];
    assert Repeat(48, 1) == [48];
  }

  /** Old DATETIME: the number yyyymmddhhmmss. */
  lemma OldDateTimeDecodes(lib: Library, t: DateTime, unsigned: bool) returns (text: bytes)
    requires t.year < 10000 && t.month < 100 && t.day < 100 && t.hour < 24 && t.minute < 60 && t.second < 60
    ensures var v := TimeNumber(t.year, t.month, t.day) * 1000000 + TimeNumber(t.hour, t.minute, t.second);
            Decodes(lib, DateTimeColumn, unsigned, PutLE(v, 8), text)
    ensures |text| == 19 && IsDate(text[..10], t.year, t.month, t.day) && text[10] == 32
            && IsClock(text[11..], t.hour, t.minute, t.second)
  {
    hide LE, PutLE, Clock, Calendar, Pow256, IsClock, IsDate, TimeNumber;
    var d, c := TimeNumber(t.year, t.month, t.day), TimeNumber(t.hour, t.minute, t.second);
    var v := d * 1000000 + c;
    TimeNumberBound(t.year, t.month, t.day);
    TimeNumberBound(t.hour, t.minute, t.second);
    assert v / 1000000 == d && v % 1000000 == c;
    TimeNumberFields(t.year, t.month, t.day);
    TimeNumberFields(t.hour, t.minute, t.second);
    Pow256Values();
    LEPut(v, 8);
    TakeAll(PutLE(v, 8));
    text := OldDateTimeText(v);
    DateTimeParts(t);
    assert text == DateTimeText(t);
  }

  lemma TimeNumberBound(a: nat, b: nat, c: nat)
    requires a < 10000 && b < 100 && c < 100
    ensures TimeNumber(a, b, c) < 100000000 && (a < 100 ==> TimeNumber(a, b, c) < 1000000)
  {
  }

  lemma DateTimeParts(t: DateTime)
    requires t.year < 10000 && t.month < 100 && t.day < 100 && t.hour < 100 && t.minute < 100 && t.second < 100
    ensures var text := DateTimeText(t);
            |text| == 19 && IsDate(text[..10], t.year, t.month, t.day) && text[10] == 32
            && IsClock(text[11..], t.hour, t.minute, t.second)
  {
    CalendarText(t.year, t.month, t.day);
    ClockText(t.hour, t.minute, t.second);
    TwoDigitClock(t.hour, t.minute, t.second);
    hide Calendar, Clock, DigitsAt;
    var text := DateTimeText(t);
    assert text[..10] == Calendar(t.year, t.month, t.day);
    assert text[11..] == Clock(t.hour, t.minute, t.second);
  }

  lemma TwoDigitClock(hour: nat, minute: nat, second: nat)
    requires hour < 100 && minute < 100 && second < 100
    ensures |Clock(hour, minute, second)| == 8
  {
    hide ZeroPadded, Value, AllDigits, Pow10;
    Pow10Table();
    Padded(hour, 2);
    Padded(minute, 2);
    Padded(second, 2);
  }

  // ---------- the formats with fractions ----------

  lemma Number(n: nat, w: nat, rest: bytes)
    requires n < Pow256(w)
    ensures var cell := PutBE(n, w) + rest; Take(cell, 0, w) == Ok(PutBE(n, w)) && BE(PutBE(n, w)) == n
  {
    hide BE, PutBE;
    BEPut(n, w);
    assert (PutBE(n, w) + rest)[0..w] == PutBE(n, w);
  }

  lemma FractionIsRead(head: bytes, frac: nat, m: nat)
    requires m <= 6 && frac < Pow10(m)
    ensures var cell := head + PutBE(StoredFraction(frac, m), (m + 1) / 2);
            Fraction(cell, |head|, m) == Ok((FracDigits(StoredFraction(frac, m), m), (m + 1) / 2))
  {
    hide BE, PutBE, ZeroPadded, Pow10, Pow256;
    FractionText(frac, m);
    var f := StoredFraction(frac, m);
    BEPut(f, (m + 1) / 2);
    assert (head + PutBE(f, (m + 1) / 2))[|head|..|head| + (m + 1) / 2] == PutBE(f, (m + 1) / 2);
  }

  /** TIMESTAMP(m): seconds as the library prints them, and the fraction. */
  lemma Timestamp2Decodes(lib: Library, seconds: nat, frac: nat, m: nat, unsigned: bool) returns (fraction: bytes)
    requires m <= 6 && frac < Pow10(m) && seconds < Pow256(4)
    ensures var cell := PutBE(seconds, 4) + PutBE(StoredFraction(frac, m), (m + 1) / 2);
            Decodes(lib, Timestamp2Column(m), unsigned, cell, lib.timestamp(seconds) + fraction)
    ensures IsFraction(fraction, m, frac)
  {
    hide BE, PutBE, FracDigits, Pow10, Pow256, Take, Fraction, StoredFraction;
    fraction := FracDigits(StoredFraction(frac, m), m);
    FractionText(frac, m);
    Number(seconds, 4, PutBE(StoredFraction(frac, m), (m + 1) / 2));
    FractionIsRead(PutBE(seconds, 4), frac, m);
  }

  /** DATETIME(m): the packed fields above the bias, and the fraction. */
  lemma DateTime2Decodes(lib: Library, t: DateTime, frac: nat, m: nat, unsigned: bool)
    returns (text: bytes, fraction: bytes)
    requires Packable(t) && m <= 6 && frac < Pow10(m)
    ensures var cell := PutBE(0x80_0000_0000 + PackDateTime(t), 5) + PutBE(StoredFraction(frac, m), (m + 1) / 2);
            Decodes(lib, DateTime2Column(m), unsigned, cell, text + fraction)
    ensures |text| == 19 && IsDate(text[..10], t.year, t.month, t.day) && text[10] == 32
            && IsClock(text[11..], t.hour, t.minute, t.second)
    ensures IsFraction(fraction, m, frac)
  {
    hide BE, PutBE, FracDigits, Pow10, Pow256, Take, Fraction, StoredFraction, PackDateTime, UnpackDateTime,
         DateTimeText, IsDate, IsClock;
    DateTimeRoundTrip(t);
    text := DateTimeText(t);
    DateTimeParts(t);
    fraction := FracDigits(StoredFraction(frac, m), m);
    FractionText(frac, m);
    Pow256Values();
    var n := 0x80_0000_0000 + PackDateTime(t);
    Number(n, 5, PutBE(StoredFraction(frac, m), (m + 1) / 2));
    FractionIsRead(PutBE(n, 5), frac, m);
  }

  /** TIME(m): the biased number of the signed clock and fraction. */
  lemma Time2Decodes(lib: Library, negative: bool, hour: nat, minute: nat, second: nat, frac: nat, m: nat,
                     unsigned: bool)
    returns (clock: bytes, fraction: bytes)
    requires hour < 1024 && minute < 64 && second < 64 && m <= 6 && frac < Pow10(m)
    requires negative ==> hour + minute + second + frac > 0
    ensures var k := (m + 1) / 2;
            var magnitude := (hour * 4096 + minute * 64 + second) * Pow256(k) + StoredFraction(frac, m);
            var biased := 0x80_0000 * Pow256(k) + if negative then -magnitude else magnitude;
            biased >= 0
            && Decodes(lib, Time2Column(m), unsigned, PutBE(biased, 3 + k),
                       (if negative then [45] else []) + clock + fraction)
    ensures IsClock(clock, hour, minute, second) && IsFraction(fraction, m, frac)
  {
    hide PutBE, FracDigits, Pow10, Pow256, IsClock, IsFraction, Time2Cell, TimeText, Clock, Decodes, BiasedTime,
         Storable, StoredFraction, FracBytes;
    var f, k := StoredFraction(frac, m), (m + 1) / 2;
    FractionText(frac, m);
    ClockText(hour, minute, second);
    clock, fraction := Clock(hour, minute, second), FracDigits(f, m);
    var t := SignedTime(negative, hour * 4096 + minute * 64 + second, f);
    TimeIsStorable(negative, hour, minute, second, frac, m);
    FracBytesValue(m);
    Time2RoundTrip(t, m, []);
    var cell := PutBE(BiasedTime(t, k), 3 + k);
    assert cell + [] == cell;
    TimeTextFields(negative, hour, minute, second, f, m);
    Time2Holds(lib, cell, m, unsigned);
    BiasedTimeIs(t, k);
  }

  lemma TimeIsStorable(negative: bool, hour: nat, minute: nat, second: nat, frac: nat, m: nat)
    requires hour < 1024 && minute < 64 && second < 64 && m <= 6 && frac < Pow10(m)
    requires negative ==> hour + minute + second + frac > 0
    ensures Storable(SignedTime(negative, hour * 4096 + minute * 64 + second, StoredFraction(frac, m)), (m + 1) / 2)
  {
    hide Pow10, Pow256;
    StoredFractionFits(frac, m);
  }

  lemma BiasedTimeIs(t: SignedTime, k: nat)
    ensures var magnitude := t.hms * Pow256(k) + t.frac;
            BiasedTime(t, k) == 0x80_0000 * Pow256(k) + if t.negative then -magnitude else magnitude
  {
    hide Pow256;
  }

  lemma Time2Holds(lib: Library, cell: bytes, m: nat, unsigned: bool)
    requires m <= 6
    ensures var c := Time2Cell(cell, 0, m);
            c.Ok? && c.value.1 == |cell| ==> Decodes(lib, Time2Column(m), unsigned, cell, c.value.0)
  {
    hide TimeText, Borrow, BE;
  }

  // ---------- decimals ----------

  /** DECIMAL(p, s): the text of `DecimalCells.DecimalRoundTrip`, unless it is the zero that has none. */
  lemma DecimalDecodes(lib: Library, p: nat, s: nat, negative: bool, whole: nat, frac: nat, unsigned: bool)
    returns (text: bytes)
    requires 0 < p < 256 && s <= p && whole < Pow10(p - s) && frac < Pow10(s)
    requires negative || whole > 0 || s > 0
    ensures var magnitude := Magnitude(whole, frac, p - s, s);
            && |magnitude| > 0 && magnitude[0] < 128
            && Decodes(lib, DecimalColumn(p, s), unsigned, Stored(negative, magnitude), text)
            && DropBlanks(text) == Denoted(negative, whole, frac, s)
  {
    hide DecimalCell, Stored, Magnitude, Decimal, Pow10, Size, DropBlanks, Denoted;
    DecimalRoundTrip(negative, whole, frac, p - s, s, []);
    DecimalZeroIsNil(lib, negative, whole, frac, p - s, s, [], unsigned);
    var cell := Stored(negative, Magnitude(whole, frac, p - s, s));
    assert cell + [] == cell;
    text := DecimalCell(cell, 0, p * 256 + s).value.0;
    var c := DecimalColumn(p, s);
    assert Metadata(c) == p * 256 + s;
    LengthsAgree(lib, cell, 0, NEWDECIMAL, p * 256 + s, unsigned);
  }
}
