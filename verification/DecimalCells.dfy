/** NEWDECIMAL cells: base-10^9 groups, most significant first, with a flipped sign bit and every
    byte complemented for a negative number. */
module DecimalCells {
  import opened Results
  import opened Bytes
  import opened Digits

  const GROUP: nat := 1_000_000_000

  /** Bytes that hold x < 9 leftover digits: 0, 1, 1, 2, 2, 3, 3, 4, 4. */
  function Dig2Bytes(x: nat): nat {
    (x + 1) / 2
  }

  /** The digit counts before and after the point. */
  function Precision(metadata: nat): nat { metadata / 256 }
  function Scale(metadata: nat): nat { metadata % 256 }

  function Size(intg: nat, scale: nat): nat {
    intg / 9 * 4 + Dig2Bytes(intg % 9) + scale / 9 * 4 + Dig2Bytes(scale % 9)
  }

  /** The length the scanner computes. With a scale above the precision Go's division truncates towards
      zero: the leftover digit count is then a negative index, unless the excess is a multiple of 9. */
  function DecimalLength(metadata: nat): Result<nat> {
    var precision, scale := Precision(metadata), Scale(metadata);
    if precision >= scale then Ok(Size(precision - scale, scale))
    else if (scale - precision) % 9 != 0 then Err(OutOfRange)
    else
      assert (scale - precision) / 9 <= scale / 9;
      Ok(scale / 9 * 4 + Dig2Bytes(scale % 9) - (scale - precision) / 9 * 4)
  }

  function Complement(b: bytes): (c: bytes)
    ensures |c| == |b|
  {
    seq(|b|, i requires 0 <= i < |b| => 255 - b[i])
  }

  /** x ^ 0x80 */
  function FlipTop(x: byte): byte {
    if x < 128 then x + 128 else x - 128
  }

  /** The magnitude bytes of a stored cell. */
  function Unsigned(d: bytes): (u: bytes)
    requires d != []
    ensures |u| == |d|
  {
    var flipped := d[0 := FlipTop(d[0])];
    if d[0] < 128 then Complement(flipped) else flipped
  }

  function Group(d: bytes, pos: nat): nat
    requires pos + 4 <= |d|
  {
    BE(d[pos..pos + 4])
  }

  /** Whether a digit has been written once the k leading bytes and n full groups are printed. */
  predicate HasDigits(d: bytes, k: nat, n: nat)
    requires k + 4 * n <= |d|
  {
    if n == 0 then BE(d[..k]) > 0 else HasDigits(d, k, n - 1) || Group(d, k + 4 * (n - 1)) > 0
  }

  /** The integer digits as printed: the first group that is not zero is padded with blanks. */
  function IntText(d: bytes, k: nat, n: nat): bytes
    requires k + 4 * n <= |d|
  {
    if n == 0 then if BE(d[..k]) > 0 then Decimal(BE(d[..k])) else []
    else
      var v := Group(d, k + 4 * (n - 1));
      IntText(d, k, n - 1)
      + if HasDigits(d, k, n - 1) then ZeroPadded(v, 9) else if v > 0 then BlankPadded(v, 9) else []
  }

  function FracGroups(d: bytes, pos: nat, n: nat): bytes
    requires pos + 4 * n <= |d|
  {
    if n == 0 then [] else FracGroups(d, pos, n - 1) + ZeroPadded(Group(d, pos + 4 * (n - 1)), 9)
  }

  function FracText(d: bytes, pos: nat, scale: nat): bytes
    requires pos + scale / 9 * 4 + Dig2Bytes(scale % 9) <= |d|
  {
    var last := pos + scale / 9 * 4;
    FracGroups(d, pos, scale / 9)
    + if scale % 9 == 0 then [] else ZeroPadded(BE(d[last..last + Dig2Bytes(scale % 9)]), scale % 9)
  }

  function MagnitudeText(d: bytes, intg: nat, scale: nat): bytes
    requires |d| == Size(intg, scale)
  {
    var k, n := Dig2Bytes(intg % 9), intg / 9;
    IntText(d, k, n)
    + if scale == 0 then []
      else (if HasDigits(d, k, n) then [] else [48]) + [46] + FracText(d, k + 4 * n, scale)
  }

  function DecimalText(stored: bytes, intg: nat, scale: nat): bytes
    requires |stored| == Size(intg, scale) && stored != []
  {
    (if stored[0] < 128 then [45] else []) + MagnitudeText(Unsigned(stored), intg, scale)
  }

  /** The decoder's NEWDECIMAL case. A scale above the precision makes it read past its copy. */
  function DecimalCell(data: bytes, pos: nat, metadata: nat): Result<(bytes, nat)> {
    var precision, scale := Precision(metadata), Scale(metadata);
    if precision < scale then Err(OutOfRange)
    else
      var stored :- Take(data, pos, Size(precision - scale, scale));
      if stored == [] then Err(OutOfRange)
      else Ok((DecimalText(stored, precision - scale, scale), |stored|))
  }

  /** Why a scale above the precision cannot be decoded: the copy is too short for the fraction alone. */
  lemma NegativeIntegerPartIsTooShort(metadata: nat)
    requires Precision(metadata) < Scale(metadata)
    ensures var l := DecimalLength(metadata);
            l.Ok? ==> l.value < Scale(metadata) / 9 * 4 + Dig2Bytes(Scale(metadata) % 9)
  {
    var excess := Scale(metadata) - Precision(metadata);
    if excess % 9 == 0 {
      assert excess / 9 >= 1;
    }
  }

  /** Undo the sign encoding in a copy of the cell. */
  method RestoreMagnitude(d: array<byte>) returns (isNegative: bool)
    requires d.Length > 0
    modifies d
    ensures isNegative == (old(d[0]) < 128)
    ensures d[..] == Unsigned(old(d[..]))
  {
    ghost var stored := d[..];
    isNegative := d[0] < 128;
    d[0] := FlipTop(d[0]);
    ghost var flipped := d[..];
    assert flipped == stored[0 := FlipTop(stored[0])];
    if isNegative {
      for i := 0 to d.Length
        invariant forall j :: 0 <= j < i ==> d[j] == 255 - flipped[j]
        invariant forall j :: i <= j < d.Length ==> d[j] == flipped[j]
      {
        d[i] := 255 - d[i];
      }
    }
  }

  /** The leftover full digits, then the full groups; flag says that a digit has been written. */
  method PrintInteger(d: array<byte>, k: nat, intg0: nat) returns (txt: bytes, flag: bool)
    requires k + 4 * intg0 <= d.Length
    ensures txt == IntText(d[..], k, intg0) && flag == HasDigits(d[..], k, intg0)
  {
    hide ZeroPadded, BlankPadded, Decimal, BE;
    ghost var u := d[..];
    assert d[..k] == u[..k];
    var val := BE(d[..k]);
    flag := val > 0;
    txt := if val > 0 then Decimal(val) else [];
    var p := k;
    for i := 0 to intg0
      invariant p == k + 4 * i
      invariant flag == HasDigits(u, k, i)
      invariant txt == IntText(u, k, i)
    {
      assert d[p..p + 4] == u[p..p + 4];
      val := BE(d[p..p + 4]);
      if flag {
        txt := txt + ZeroPadded(val, 9);
      } else if val > 0 {
        txt := txt + BlankPadded(val, 9);
        flag := true;
      } else {
        assert txt + [] == txt;
      }
      p := p + 4;
    }
  }

  /** The full fraction groups, then the partial one. */
  method PrintFraction(d: array<byte>, start: nat, scale: nat) returns (txt: bytes)
    requires start + scale / 9 * 4 + Dig2Bytes(scale % 9) <= d.Length
    ensures txt == FracText(d[..], start, scale)
  {
    hide ZeroPadded, BE;
    ghost var u := d[..];
    var frac0 := scale / 9;
    var frac0x := scale - frac0 * 9;
    txt := [];
    var p := start;
    for i := 0 to frac0
      invariant p == start + 4 * i
      invariant txt == FracGroups(u, start, i)
    {
      assert d[p..p + 4] == u[p..p + 4];
      txt := txt + ZeroPadded(BE(d[p..p + 4]), 9);
      p := p + 4;
    }
    if frac0x != 0 {
      var k := Dig2Bytes(frac0x);
      assert d[p..p + k] == u[p..p + k];
      txt := txt + ZeroPadded(BE(d[p..p + k]), frac0x);
    } else {
      assert txt + [] == txt;
    }
  }

  method DecodeDecimal(data: bytes, pos: nat, metadata: nat) returns (r: Result<(bytes, nat)>)
    ensures r == DecimalCell(data, pos, metadata)
  {
    hide MagnitudeText, Unsigned, Size, Precision, Scale;
    var precision, scale := Precision(metadata), Scale(metadata);
    if precision < scale {
      return Err(OutOfRange);
    }
    var intg := precision - scale;
    var l := Size(intg, scale);
    if pos + l > |data| || l == 0 {
      return Err(OutOfRange);
    }
    var d := new byte[l](i requires 0 <= i < l => data[pos + i]);
    ghost var stored := data[pos..pos + l];
    assert d[..] == stored;
    var isNegative := RestoreMagnitude(d);
    var magnitude := PrintMagnitude(d, intg, scale);
    r := Ok(((if isNegative then [45] else []) + magnitude, l));
  }

  /** The integer part, and behind the point the fraction. */
  method PrintMagnitude(d: array<byte>, intg: nat, scale: nat) returns (txt: bytes)
    requires d.Length == Size(intg, scale)
    ensures txt == MagnitudeText(d[..], intg, scale)
  {
    hide IntText, FracText, HasDigits, Dig2Bytes;
    var k, intg0 := Dig2Bytes(intg % 9), intg / 9;
    var flag;
    txt, flag := PrintInteger(d, k, intg0);
    if scale == 0 {
      assert txt + [] == txt;
      return;
    }
    var fraction := PrintFraction(d, k + 4 * intg0, scale);
    txt := txt + ((if flag then [] else [48]) + [46] + fraction);
  }

  // ---------- the reference encoder, MySQL's decimal2bin ----------

  /** How many bytes MySQL takes for x leftover digits: the least that have room for x digits and a sign bit. */
  function LeftoverBytes(x: nat): nat {
    if x == 0 then 0 else LeastBytes(2 * Pow10(x))
  }

  /** The decoder's table has these widths. */
  lemma LeftoverWidths(x: nat)
    requires x < 9
    ensures Dig2Bytes(x) == LeftoverBytes(x)
  {
    hide LeastBytes;
    if x > 0 {
      Pow10Table();
      Pow256Values();
      LeastBytesIs(2 * Pow10(x), Dig2Bytes(x));
    }
  }

  /** A number as k leading bytes and n groups of nine digits. */
  function GroupBytes(v: nat, k: nat, n: nat): (b: bytes)
    ensures |b| == k + 4 * n
  {
    if n == 0 then PutBE(v, k) else GroupBytes(v / GROUP, k, n - 1) + PutBE(v % GROUP, 4)
  }

  /** A number without its last x digits, and those digits. */
  function HighDigits(v: nat, x: nat): nat {
    if x == 0 then v else HighDigits(v / 10, x - 1)
  }

  function LowDigits(v: nat, x: nat): nat {
    if x == 0 then 0 else 10 * LowDigits(v / 10, x - 1) + v % 10
  }

  function FractionBytes(frac: nat, scale: nat): (b: bytes)
    ensures |b| == scale / 9 * 4 + Dig2Bytes(scale % 9)
  {
    LeftoverWidths(scale % 9);
    GroupBytes(HighDigits(frac, scale % 9), 0, scale / 9) + PutBE(LowDigits(frac, scale % 9), LeftoverBytes(scale % 9))
  }

  /** The magnitude of a decimal with integer part whole and fraction digits frac. */
  function Magnitude(whole: nat, frac: nat, intg: nat, scale: nat): (b: bytes)
    ensures |b| == Size(intg, scale)
  {
    LeftoverWidths(intg % 9);
    GroupBytes(whole, LeftoverBytes(intg % 9), intg / 9) + FractionBytes(frac, scale)
  }

  function Stored(negative: bool, magnitude: bytes): (b: bytes)
    requires magnitude != [] && magnitude[0] < 128
    ensures |b| == |magnitude|
  {
    var flipped := magnitude[0 := magnitude[0] + 128];
    if negative then seq(|flipped|, i requires 0 <= i < |flipped| => 255 - flipped[i]) else flipped
  }

  /** The text the stored value denotes. */
  function Denoted(negative: bool, whole: nat, frac: nat, scale: nat): bytes {
    (if negative then [45] else [])
    + (if whole > 0 then Decimal(whole) else if scale > 0 then [48] else [])
    + if scale > 0 then [46] + Fixed(frac, scale) else []
  }

  function DropBlanks(b: bytes): bytes {
    if b == [] then []
    else DropBlanks(b[..|b| - 1]) + if b[|b| - 1] == 32 then [] else [b[|b| - 1]]
  }

  // ---------- blanks ----------

  lemma {:induction false} DropBlanksConcat(a: bytes, b: bytes)
    ensures DropBlanks(a + b) == DropBlanks(a) + DropBlanks(b)
  {
    if b == [] {
      assert a + b == a;
    } else {
      DropBlanksConcat(a, b[..|b| - 1]);
      assert (a + b)[..|a + b| - 1] == a + b[..|b| - 1];
    }
  }

  lemma {:induction false} NoBlanks(b: bytes)
    requires 32 !in b
    ensures DropBlanks(b) == b
  {
    if b != [] {
      NoBlanks(b[..|b| - 1]);
      assert b == b[..|b| - 1] + [b[|b| - 1]];
    }
  }

  lemma {:induction false} OnlyBlanks(n: nat)
    ensures DropBlanks(Repeat(32, n)) == []
  {
    if n > 0 {
      assert Repeat(32, n)[..n - 1] == Repeat(32, n - 1);
      OnlyBlanks(n - 1);
    }
  }

  // ---------- sign ----------

  lemma UnsignedStored(negative: bool, magnitude: bytes)
    requires magnitude != [] && magnitude[0] < 128
    ensures var s := Stored(negative, magnitude);
            Unsigned(s) == magnitude && (s[0] < 128 <==> negative)
  {
  }

  /** Complementing every byte of a stored value that is not negative adds the leading '-' and nothing else. */
  lemma ComplementAddsSign(stored: bytes, intg: nat, scale: nat)
    requires |stored| == Size(intg, scale) && stored != [] && stored[0] >= 128
    ensures DecimalText(Complement(stored), intg, scale) == [45] + DecimalText(stored, intg, scale)
  {
    hide MagnitudeText, Size;
    assert Unsigned(Complement(stored)) == Unsigned(stored);
  }

  // ---------- integer digits ----------

  /** The number held by the k leading bytes and n groups. */
  function GroupsValue(d: bytes, k: nat, n: nat): nat
    requires k + 4 * n <= |d|
  {
    if n == 0 then BE(d[..k]) else GroupsValue(d, k, n - 1) * GROUP + Group(d, k + 4 * (n - 1))
  }

  predicate GroupsInRange(d: bytes, k: nat, n: nat)
    requires k + 4 * n <= |d|
  {
    n == 0 || (GroupsInRange(d, k, n - 1) && Group(d, k + 4 * (n - 1)) < GROUP)
  }

  lemma Pow10Nine()
    ensures Pow10(9) == GROUP
  {
    assert Pow10(4) == 10000;
    assert Pow10(8) == 10000 * Pow10(4);
  }

  /** Appending a group to the digits printed so far. */
  lemma GroupText(hi: nat, v: nat)
    requires v < GROUP
    ensures hi > 0 ==> ZeroPadded(v, 9) == Fixed(v, 9) && Decimal(hi * GROUP + v) == Decimal(hi) + Fixed(v, 9)
    ensures AllDigits(Fixed(v, 9)) && |Fixed(v, 9)| == 9 && 1 <= |Decimal(v)| <= 9
  {
    Pow10Nine();
    PaddedIsFixed(v, 9);
    FixedValue(v, 9);
    if hi > 0 { DecimalGroup(hi, v, 9); }
  }

  lemma DecimalHasNoBlanks(n: nat)
    ensures 32 !in Decimal(n) && DropBlanks(Decimal(n)) == Decimal(n)
  {
    DecimalIsCanonical(n);
    NoBlanks(Decimal(n));
  }

  lemma BlankPaddedText(v: nat)
    ensures DropBlanks(BlankPadded(v, 9)) == Decimal(v)
    ensures |Decimal(v)| <= 9 ==> (32 in BlankPadded(v, 9) <==> |Decimal(v)| < 9)
  {
    DecimalHasNoBlanks(v);
    var n := 9 - |Decimal(v)|;
    if n > 0 {
      DropBlanksConcat(Repeat(32, n), Decimal(v));
      OnlyBlanks(n);
      assert Repeat(32, n)[0] == 32;
      assert BlankPadded(v, 9)[0] == 32;
    }
  }

  /** Without its blanks, the printed integer part is the canonical decimal of the number (nothing for
      zero); it has blanks exactly when the leading bytes are zero and the digits do not fill whole groups. */
  lemma {:induction false} IntTextDenotes(d: bytes, k: nat, n: nat)
    requires k + 4 * n <= |d| && GroupsInRange(d, k, n)
    ensures var v := GroupsValue(d, k, n);
            && (HasDigits(d, k, n) <==> v > 0) && (BE(d[..k]) > 0 ==> v > 0)
            && DropBlanks(IntText(d, k, n)) == (if v > 0 then Decimal(v) else [])
            && (32 in IntText(d, k, n) <==> BE(d[..k]) == 0 && v > 0 && |Decimal(v)| % 9 != 0)
  {
    var v := GroupsValue(d, k, n);
    if n == 0 {
      DecimalHasNoBlanks(v);
    } else {
      hide Decimal, ZeroPadded, BlankPadded, DropBlanks, BE, Group;
      IntTextDenotes(d, k, n - 1);
      var g := Group(d, k + 4 * (n - 1));
      assert v == GroupsValue(d, k, n - 1) * GROUP + g;
      IntTextMore(IntText(d, k, n - 1), GroupsValue(d, k, n - 1), g, BE(d[..k]) > 0);
    }
  }

  /** One more group, printed behind the text of the digits before it. */
  function MoreText(before: bytes, hi: nat, g: nat): bytes {
    before + if hi > 0 then ZeroPadded(g, 9) else if g > 0 then BlankPadded(g, 9) else []
  }

  lemma IntTextMore(before: bytes, hi: nat, g: nat, lead: bool)
    requires g < GROUP && (lead ==> hi > 0)
    requires DropBlanks(before) == (if hi > 0 then Decimal(hi) else [])
    requires 32 in before <==> !lead && hi > 0 && |Decimal(hi)| % 9 != 0
    ensures var v := hi * GROUP + g;
            var text := MoreText(before, hi, g);
            && DropBlanks(text) == (if v > 0 then Decimal(v) else [])
            && (32 in text <==> !lead && v > 0 && |Decimal(v)| % 9 != 0)
  {
    hide Decimal, ZeroPadded, BlankPadded, DropBlanks;
    IntTextStep(before, hi, g);
  }

  lemma IntTextStep(before: bytes, hi: nat, g: nat)
    requires g < GROUP && DropBlanks(before) == (if hi > 0 then Decimal(hi) else [])
    ensures hi > 0 ==> DropBlanks(before + ZeroPadded(g, 9)) == Decimal(hi * GROUP + g)
                       && (32 in before + ZeroPadded(g, 9) <==> 32 in before)
                       && |Decimal(hi * GROUP + g)| % 9 == |Decimal(hi)| % 9
    ensures hi == 0 ==> DropBlanks(before + BlankPadded(g, 9)) == Decimal(g) && DropBlanks(before + []) == []
                        && (32 in before + BlankPadded(g, 9) <==> 32 in before || |Decimal(g)| % 9 != 0)
  {
    hide Decimal, ZeroPadded, BlankPadded, Fixed, PadLeft;
    GroupText(hi, g);
    if hi > 0 {
      DropBlanksConcat(before, Fixed(g, 9));
      NoBlanks(Fixed(g, 9));
    } else {
      assert before + [] == before;
      DropBlanksConcat(before, BlankPadded(g, 9));
      BlankPaddedText(g);
    }
  }

  // ---------- reading encoded groups back ----------

  lemma Pow10Table()
    ensures Pow10(0) == 1 && Pow10(1) == 10 && Pow10(2) == 100 && Pow10(3) == 1000 && Pow10(4) == 10000
    ensures Pow10(5) == 100000 && Pow10(6) == 1000000 && Pow10(7) == 10000000 && Pow10(8) == 100000000
  {
    assert Pow10(2) == 10 * Pow10(1);
    assert Pow10(4) == 10 * Pow10(3);
    assert Pow10(6) == 10 * Pow10(5);
    assert Pow10(8) == 10 * Pow10(7);
  }

  lemma LeftoverFits(x: nat)
    requires x < 9
    ensures Pow10(x) <= Pow256(Dig2Bytes(x))
    ensures Dig2Bytes(x) > 0 ==> Pow10(x) < 128 * Pow256(Dig2Bytes(x) - 1)
  {
    Pow10Table();
    Pow256Values();
  }

  lemma {:induction false} Pow10Add(a: nat, b: nat)
    ensures Pow10(a + b) == Pow10(a) * Pow10(b)
  {
    if a > 0 { Pow10Add(a - 1, b); }
  }

  lemma GroupBound(v: nat, m: nat)
    ensures v < Pow10(m + 9) <==> v / GROUP < Pow10(m)
  {
    Pow10Add(m, 9);
    Pow10Nine();
  }

  lemma {:induction false} QuotientBound(v: nat, a: nat, x: nat)
    requires v < Pow10(a + x)
    ensures HighDigits(v, x) < Pow10(a) && LowDigits(v, x) < Pow10(x)
    ensures HighDigits(v, x) * Pow10(x) + LowDigits(v, x) == v
  {
    if x > 0 {
      assert Pow10(a + x) == 10 * Pow10(a + x - 1) && a + x - 1 == a + (x - 1);
      QuotientBound(v / 10, a, x - 1);
      assert Pow10(x) == 10 * Pow10(x - 1);
      TimesTen(HighDigits(v, x), Pow10(x - 1));
    } else {
      assert Pow10(0) == 1;
    }
  }

  lemma TimesTen(a: nat, b: nat)
    ensures a * (10 * b) == 10 * (a * b)
  {
  }

  /** The last group of an encoded number, and the bytes before it. */
  lemma GroupSplit(v: nat, k: nat, n: nat, d: bytes, pos: nat)
    requires n > 0 && pos + k + 4 * n <= |d| && d[pos..pos + k + 4 * n] == GroupBytes(v, k, n)
    ensures d[pos..pos + k + 4 * (n - 1)] == GroupBytes(v / GROUP, k, n - 1)
    ensures Group(d, pos + k + 4 * (n - 1)) == v % GROUP
  {
    var rest := k + 4 * (n - 1);
    var all := d[pos..pos + k + 4 * n];
    assert all == GroupBytes(v / GROUP, k, n - 1) + PutBE(v % GROUP, 4);
    assert d[pos..pos + rest] == all[..rest] == GroupBytes(v / GROUP, k, n - 1);
    assert d[pos + rest..pos + rest + 4] == all[rest..] == PutBE(v % GROUP, 4);
    BEPut(v % GROUP, 4);
    Pow256Values();
  }

  /** The groups of an encoded number give the number back; the leading bytes are zero exactly when it
      fits the full groups. */
  lemma {:induction false} GroupsDecode(v: nat, x: nat, n: nat, d: bytes)
    requires x < 9 && v < Pow10(x + 9 * n)
    requires Dig2Bytes(x) + 4 * n <= |d| && d[..Dig2Bytes(x) + 4 * n] == GroupBytes(v, Dig2Bytes(x), n)
    ensures var k := Dig2Bytes(x);
            GroupsValue(d, k, n) == v && GroupsInRange(d, k, n) && (BE(d[..k]) == 0 <==> v < Pow10(9 * n))
  {
    hide Group, BE, Dig2Bytes, Pow10, PutBE;
    var k := Dig2Bytes(x);
    if n == 0 {
      assert d[..k] == PutBE(v, k);
      LeftoverText(v, x);
      assert Pow10(0) == 1 by { Pow10Table(); }
    } else {
      hide GroupBytes;
      assert d[0..k + 4 * n] == d[..k + 4 * n];
      GroupSplit(v, k, n, d, 0);
      assert d[0..k + 4 * (n - 1)] == d[..k + 4 * (n - 1)];
      GroupBound(v, x + 9 * (n - 1));
      GroupBound(v, 9 * (n - 1));
      assert x + 9 * (n - 1) + 9 == x + 9 * n;
      GroupsDecode(v / GROUP, x, n - 1, d);
    }
  }

  lemma {:induction false} FracGroupsDecode(v: nat, n: nat, d: bytes, pos: nat)
    requires v < Pow10(9 * n) && pos + 4 * n <= |d| && d[pos..pos + 4 * n] == GroupBytes(v, 0, n)
    ensures FracGroups(d, pos, n) == Fixed(v, 9 * n)
  {
    hide GroupBytes, Group, BE, PadLeft, Decimal, Pow10;
    if n > 0 {
      hide Fixed;
      GroupSplit(v, 0, n, d, pos);
      GroupBound(v, 9 * (n - 1));
      FracGroupsDecode(v / GROUP, n - 1, d, pos);
      var hi, lo := v / GROUP, v % GROUP;
      GroupText(1, lo);
      Pow10Nine();
      FixedGroup(hi, 9 * (n - 1), lo, 9);
      assert hi * GROUP + lo == v && 9 * (n - 1) + 9 == 9 * n;
      assert FracGroups(d, pos, n) == FracGroups(d, pos, n - 1) + ZeroPadded(lo, 9);
    }
  }

  /** The leftover fraction digits. */
  lemma LeftoverText(lo: nat, x: nat)
    requires x < 9 && lo < Pow10(x)
    ensures BE(PutBE(lo, Dig2Bytes(x))) == lo
    ensures (if x == 0 then [] else ZeroPadded(lo, x)) == Fixed(lo, x)
  {
    hide BE, PutBE, Decimal, PadLeft, Pow10, Pow256;
    LeftoverFits(x);
    BEPut(lo, Dig2Bytes(x));
    if x > 0 {
      PaddedIsFixed(lo, x);
    }
  }

  lemma FracTextDecodes(frac: nat, scale: nat, d: bytes, pos: nat)
    requires frac < Pow10(scale) && pos + |FractionBytes(frac, scale)| == |d| && d[pos..] == FractionBytes(frac, scale)
    ensures FracText(d, pos, scale) == Fixed(frac, scale)
  {
    hide Fixed, ZeroPadded, BE, GroupBytes, FracGroups, Dig2Bytes, LeftoverBytes, Pow10, PutBE, HighDigits, LowDigits;
    LeftoverWidths(scale % 9);
    var x, n := scale % 9, scale / 9;
    var hi, lo := HighDigits(frac, x), LowDigits(frac, x);
    var last := pos + 4 * n;
    var tail := d[pos..];
    assert d[pos..last] == tail[..4 * n] == GroupBytes(hi, 0, n);
    assert d[last..last + Dig2Bytes(x)] == tail[4 * n..] == PutBE(lo, Dig2Bytes(x));
    QuotientBound(frac, 9 * n, x);
    FracGroupsDecode(hi, n, d, pos);
    LeftoverText(lo, x);
    assert 9 * n + x == scale;
    FixedGroup(hi, 9 * n, lo, x);
    assert FracText(d, pos, scale) == FracGroups(d, pos, n) + if x == 0 then [] else ZeroPadded(lo, x);
  }

  // ---------- the sign bit of a magnitude is clear ----------

  lemma {:induction false} TopByte(v: nat, k: nat)
    requires k > 0 && v < 128 * Pow256(k - 1)
    ensures PutBE(v, k)[0] < 128
  {
    if k > 1 {
      assert v / 256 < 128 * Pow256(k - 2);
      TopByte(v / 256, k - 1);
    } else {
      assert PutBE(v, 1) == [v % 256];
    }
  }

  lemma {:induction false} GroupBytesTop(v: nat, x: nat, n: nat)
    requires x < 9 && v < Pow10(x + 9 * n) && Dig2Bytes(x) + 4 * n > 0
    ensures GroupBytes(v, Dig2Bytes(x), n)[0] < 128
  {
    var k := Dig2Bytes(x);
    if n == 0 {
      LeftoverFits(x);
      TopByte(v, k);
    } else if k + 4 * (n - 1) > 0 {
      GroupBound(v, x + 9 * (n - 1));
      assert x + 9 * (n - 1) + 9 == x + 9 * n;
      GroupBytesTop(v / GROUP, x, n - 1);
    } else {
      Pow256Values();
      TopByte(v % GROUP, 4);
      assert GroupBytes(v / GROUP, 0, 0) == [];
    }
  }

  lemma SizeWithoutFraction(intg: nat)
    ensures Size(intg, 0) == intg / 9 * 4 + Dig2Bytes(intg % 9)
  {
  }

  lemma MagnitudeTop(whole: nat, frac: nat, intg: nat, scale: nat)
    requires whole < Pow10(intg) && frac < Pow10(scale) && Size(intg, scale) > 0
    ensures Magnitude(whole, frac, intg, scale)[0] < 128
  {
    SizeWithoutFraction(intg);
    hide FractionBytes, Pow10, PutBE, GroupBytes, Dig2Bytes, LeftoverBytes, Size;
    LeftoverWidths(intg % 9);
    var x, n := intg % 9, intg / 9;
    assert intg == x + 9 * n;
    var ints := GroupBytes(whole, Dig2Bytes(x), n);
    assert Magnitude(whole, frac, intg, scale) == ints + FractionBytes(frac, scale);
    if ints != [] {
      GroupBytesTop(whole, x, n);
    } else {
      FractionTop(frac, scale);
    }
  }

  lemma FractionTop(frac: nat, scale: nat)
    requires frac < Pow10(scale) && scale > 0
    ensures |FractionBytes(frac, scale)| > 0 && FractionBytes(frac, scale)[0] < 128
  {
    hide Pow10, PutBE, Pow256, HighDigits, LowDigits, LeftoverBytes;
    LeftoverWidths(scale % 9);
    var x, n := scale % 9, scale / 9;
    QuotientBound(frac, 9 * n, x);
    if n > 0 {
      hide GroupBytes;
      GroupBytesTop(HighDigits(frac, x), 0, n);
    } else {
      LeftoverFits(x);
      TopByte(LowDigits(frac, x), Dig2Bytes(x));
      assert GroupBytes(HighDigits(frac, x), 0, 0) == [];
    }
  }

  // ---------- the main results ----------

  /** What the decoder prints for a magnitude. */
  lemma MagnitudeDenotes(whole: nat, frac: nat, intg: nat, scale: nat)
    requires whole < Pow10(intg) && frac < Pow10(scale)
    ensures var text := MagnitudeText(Magnitude(whole, frac, intg, scale), intg, scale);
            && DropBlanks(text) == Denoted(false, whole, frac, scale)
            && (32 in text <==> 0 < whole < Pow10(9 * (intg / 9)) && |Decimal(whole)| % 9 != 0)
  {
    hide IntText, FracText, HasDigits, DropBlanks, GroupsValue, Decimal, Fixed, BE, GroupBytes, FractionBytes,
         GroupsInRange, Size, Pow10, Dig2Bytes, LeftoverBytes;
    LeftoverWidths(intg % 9);
    var d := Magnitude(whole, frac, intg, scale);
    var x, n := intg % 9, intg / 9;
    var k := Dig2Bytes(x);
    assert intg == x + 9 * n;
    assert d[..k + 4 * n] == GroupBytes(whole, k, n);
    GroupsDecode(whole, x, n, d);
    IntTextDenotes(d, k, n);
    var ints := IntText(d, k, n);
    if scale > 0 {
      assert d[k + 4 * n..] == FractionBytes(frac, scale);
      FracTextDecodes(frac, scale, d, k + 4 * n);
      var point := (if whole > 0 then [] else [48]) + [46] + Fixed(frac, scale);
      PointText(ints, whole, frac, scale);
      assert MagnitudeText(d, intg, scale) == ints + point;
    } else {
      assert MagnitudeText(d, intg, scale) == ints + [] == ints;
    }
  }

  lemma PointText(ints: bytes, whole: nat, frac: nat, scale: nat)
    requires scale > 0 && DropBlanks(ints) == (if whole > 0 then Decimal(whole) else [])
    ensures var point := (if whole > 0 then [] else [48]) + [46] + Fixed(frac, scale);
            DropBlanks(ints + point) == Denoted(false, whole, frac, scale)
            && (32 in ints + point <==> 32 in ints)
  {
    hide DropBlanks, Decimal, Fixed;
    var point := (if whole > 0 then [] else [48]) + [46] + Fixed(frac, scale);
    FixedValue(frac, scale);
    NoBlanks(point);
    DropBlanksConcat(ints, point);
  }

  /** NEWDECIMAL decoding is exact. Every value of every precision and scale, encoded in MySQL's format and
      followed by anything, is decoded over exactly its cell into text that, without pad blanks, is the sign,
      the canonical integer digits and exactly `scale` fraction digits. Blanks appear exactly when the leading
      bytes are zero and the integer digits do not fill whole groups of nine. */
  lemma DecimalRoundTrip(negative: bool, whole: nat, frac: nat, intg: nat, scale: nat, rest: bytes)
    requires intg + scale > 0 && scale < 256
    requires whole < Pow10(intg) && frac < Pow10(scale)
    ensures var magnitude := Magnitude(whole, frac, intg, scale);
            && |magnitude| > 0 && magnitude[0] < 128
            && var cell := Stored(negative, magnitude);
            var r := DecimalCell(cell + rest, 0, (intg + scale) * 256 + scale);
            && r.Ok? && r.value.1 == |cell|
            && DropBlanks(r.value.0) == Denoted(negative, whole, frac, scale)
            && (32 in r.value.0 <==> 0 < whole < Pow10(9 * (intg / 9)) && |Decimal(whole)| % 9 != 0)
  {
    hide MagnitudeText, DropBlanks, Decimal, Stored, Unsigned, Magnitude, Denoted, Size, Pow10, DecimalCell;
    var magnitude := Magnitude(whole, frac, intg, scale);
    assert Size(intg, scale) > 0 by { SizePositive(intg, scale); }
    MagnitudeTop(whole, frac, intg, scale);
    var cell := Stored(negative, magnitude);
    UnsignedStored(negative, magnitude);
    MagnitudeDenotes(whole, frac, intg, scale);
    CellOfSize(cell, rest, intg, scale);
    var sign := if negative then [45] else [];
    var text := MagnitudeText(magnitude, intg, scale);
    DropBlanksConcat(sign, text);
    NoBlanks(sign);
    DenotedSign(negative, whole, frac, scale);
    assert DecimalText(cell, intg, scale) == sign + text;
    hide DecimalText;
  }

  lemma SizePositive(intg: nat, scale: nat)
    requires intg + scale > 0
    ensures Size(intg, scale) > 0
  {
  }

  lemma CellOfSize(cell: bytes, rest: bytes, intg: nat, scale: nat)
    requires |cell| == Size(intg, scale) > 0 && scale < 256
    ensures DecimalCell(cell + rest, 0, (intg + scale) * 256 + scale) == Ok((DecimalText(cell, intg, scale), |cell|))
  {
    hide DecimalText;
    var metadata := (intg + scale) * 256 + scale;
    assert Precision(metadata) == intg + scale && Scale(metadata) == scale;
    hide Size, Precision, Scale;
    assert (cell + rest)[0..|cell|] == cell;
  }

  lemma DenotedSign(negative: bool, whole: nat, frac: nat, scale: nat)
    ensures Denoted(negative, whole, frac, scale)
            == (if negative then [45] else []) + Denoted(false, whole, frac, scale)
  {
  }
}
