/** The value cells of a rows event: how long a cell is, and the text it decodes to. */
module Cells {
  import opened Results
  import opened Bytes
  import opened Digits
  import opened DecimalCells
  import opened TimeCells

  // Column types.
  const DECIMAL := 0
  const TINY := 1
  const SHORT := 2
  const LONG := 3
  const FLOAT := 4
  const DOUBLE := 5
  const NULL := 6
  const TIMESTAMP := 7
  const LONGLONG := 8
  const INT24 := 9
  const DATE := 10
  const TIME := 11
  const DATETIME := 12
  const YEAR := 13
  const NEWDATE := 14
  const VARCHAR := 15
  const BIT := 16
  const TIMESTAMP2 := 17
  const DATETIME2 := 18
  const TIME2 := 19
  const JSON := 245
  const NEWDECIMAL := 246
  const ENUM := 247
  const SET := 248
  const TINY_BLOB := 249
  const MEDIUM_BLOB := 250
  const LONG_BLOB := 251
  const BLOB := 252
  const VAR_STRING := 253
  const STRING := 254
  const GEOMETRY := 255

  // ---------- cellLength ----------

  /** A length prefix of n bytes, and the cell it announces. */
  function Prefixed(data: bytes, pos: nat, n: nat): Result<nat> {
    var b :- Take(data, pos, n);
    Ok(n + LE(b))
  }

  /** Width of a VARCHAR's length prefix. */
  function VarcharPrefix(metadata: nat): nat {
    if metadata > 255 then 2 else 1
  }

  /** Width of a CHAR's length prefix: bits 4 and 5 of the upper metadata byte, inverted, are bits 8
      and 9 of the maximum length, and the lower byte is the rest of it. */
  function StringPrefix(metadata: nat): nat {
    if 0x300 - metadata / 4096 % 4 * 256 + metadata % 256 > 255 then 2 else 1
  }

  function BitBytes(metadata: nat): nat {
    (metadata / 256 * 8 + metadata % 256 + 7) / 8
  }

  function FixedLength(typ: byte): Option<nat> {
    if typ == NULL then Some(0)
    else if typ == TINY || typ == YEAR then Some(1)
    else if typ == SHORT then Some(2)
    else if typ == INT24 || typ == DATE || typ == TIME || typ == NEWDATE then Some(3)
    else if typ == LONG || typ == FLOAT || typ == TIMESTAMP then Some(4)
    else if typ == LONGLONG || typ == DOUBLE || typ == DATETIME then Some(8)
    else None
  }

  predicate IsBlob(typ: byte) {
    typ == TINY_BLOB || typ == MEDIUM_BLOB || typ == LONG_BLOB || typ == BLOB || typ == GEOMETRY
  }

  function CellLength(data: bytes, pos: nat, typ: byte, metadata: nat): Result<nat> {
    if FixedLength(typ).Some? then Ok(FixedLength(typ).value)
    else if typ == VARCHAR || typ == VAR_STRING then Prefixed(data, pos, VarcharPrefix(metadata))
    else if typ == BIT then Ok(BitBytes(metadata))
    else if typ == TIMESTAMP2 then Ok(4 + (metadata + 1) / 2)
    else if typ == DATETIME2 then Ok(5 + (metadata + 1) / 2)
    else if typ == TIME2 then Ok(3 + (metadata + 1) / 2)
    else if typ == NEWDECIMAL then DecimalLength(metadata)
    else if typ == ENUM || typ == SET then Ok(metadata % 256)
    else if IsBlob(typ) then
      if 1 <= metadata <= 4 then Prefixed(data, pos, metadata) else Err(UnsupportedMetadata)
    else if typ == STRING then
      if metadata / 256 == ENUM || metadata / 256 == SET then Ok(metadata % 256)
      else Prefixed(data, pos, StringPrefix(metadata))
    else Err(UnsupportedType)
  }

  // ---------- CellBytes ----------

  /** Printing that belongs to Go's libraries: floats from their bits, local time from a timestamp. */
  datatype Library = Library(float32: nat -> bytes, float64: nat -> bytes, timestamp: nat -> bytes)

  /** A decoded cell: its text, None for Go's nil slice, and its length in the row. */
  type Decoded = (Option<bytes>, nat)

  function SignExtended(v: nat, w: nat): int {
    if 2 * v >= Pow256(w) then v - Pow256(w) else v
  }

  function IntCell(data: bytes, pos: nat, w: nat, unsigned: bool): Result<Decoded> {
    var b :- Take(data, pos, w);
    Ok((Some(if unsigned then Decimal(LE(b)) else SignedDecimal(SignExtended(LE(b), w))), w))
  }

  function YearCell(data: bytes, pos: nat): Result<Decoded> {
    var b :- Take(data, pos, 1);
    Ok((Some(if b[0] == 0 then [48, 48, 48, 48] else Decimal(1900 + (b[0] as int))), 1))
  }

  function PrintedCell(data: bytes, pos: nat, w: nat, show: nat -> bytes): Result<Decoded> {
    var b :- Take(data, pos, w);
    Ok((Some(show(LE(b))), w))
  }

  /** A length prefix of n bytes, then that many bytes. */
  function PrefixedCell(data: bytes, pos: nat, n: nat): Result<Decoded> {
    var b :- Take(data, pos, n);
    var v :- Take(data, pos + n, LE(b));
    Ok((Some(v), LE(b) + n))
  }

  function RawCell(data: bytes, pos: nat, l: nat): Result<Decoded> {
    var v :- Take(data, pos, l);
    Ok((Some(v), l))
  }

  function EnumCell(data: bytes, pos: nat, size: nat): Result<Decoded> {
    if size == 1 || size == 2 then IntCell(data, pos, size, true) else Err(UnsupportedMetadata)
  }

  /** A SET stored as CHAR: a number, to which bytes beyond the eighth contribute nothing. */
  function SetNumberCell(data: bytes, pos: nat, l: nat): Result<Decoded> {
    if l == 0 then Ok((Some(Decimal(0)), 0))
    else
      var b :- Take(data, pos, l);
      Ok((Some(Decimal(LE(if l > 8 then b[..8] else b))), l))
  }

  function NumericCell(lib: Library, data: bytes, pos: nat, typ: byte, unsigned: bool): Result<Decoded> {
    if typ == TINY then IntCell(data, pos, 1, unsigned)
    else if typ == SHORT then IntCell(data, pos, 2, unsigned)
    else if typ == INT24 then IntCell(data, pos, 3, unsigned)
    else if typ == LONG then IntCell(data, pos, 4, unsigned)
    else if typ == LONGLONG then IntCell(data, pos, 8, unsigned)
    else if typ == FLOAT then PrintedCell(data, pos, 4, lib.float32)
    else if typ == DOUBLE then PrintedCell(data, pos, 8, lib.float64)
    else Err(UnsupportedType)
  }

  function TemporalCell(lib: Library, data: bytes, pos: nat, typ: byte, metadata: nat): Result<Decoded> {
    if typ == YEAR then YearCell(data, pos)
    else if typ == TIMESTAMP then PrintedCell(data, pos, 4, lib.timestamp)
    else if typ == DATE || typ == NEWDATE then PrintedCell(data, pos, 3, DateText)
    else if typ == TIME then PrintedCell(data, pos, 3, OldTimeText)
    else if typ == DATETIME then PrintedCell(data, pos, 8, OldDateTimeText)
    else if typ == TIMESTAMP2 then
      var c :- WithFraction(data, pos, metadata, 4, lib.timestamp);
      Ok((Some(c.0), c.1))
    else if typ == DATETIME2 then
      var c :- DateTime2Cell(data, pos, metadata);
      Ok((Some(c.0), c.1))
    else if typ == TIME2 then
      var c :- Time2Cell(data, pos, metadata);
      Ok((Some(c.0), c.1))
    else Err(UnsupportedType)
  }

  function StringCell(data: bytes, pos: nat, typ: byte, metadata: nat): Result<Decoded> {
    if typ == VARCHAR || typ == VAR_STRING then PrefixedCell(data, pos, VarcharPrefix(metadata))
    else if typ == BIT then RawCell(data, pos, BitBytes(metadata))
    else if typ == ENUM then EnumCell(data, pos, metadata % 256)
    else if typ == SET then RawCell(data, pos, metadata % 256)
    else if IsBlob(typ) then
      if 1 <= metadata <= 4 then PrefixedCell(data, pos, metadata) else Err(UnsupportedMetadata)
    else if typ == STRING then
      if metadata / 256 == ENUM then EnumCell(data, pos, metadata % 256)
      else if metadata / 256 == SET then SetNumberCell(data, pos, metadata % 256)
      else PrefixedCell(data, pos, StringPrefix(metadata))
    else Err(UnsupportedType)
  }

  predicate IsNumeric(typ: byte) {
    typ == TINY || typ == SHORT || typ == INT24 || typ == LONG || typ == LONGLONG || typ == FLOAT || typ == DOUBLE
  }

  predicate IsTemporal(typ: byte) {
    typ == YEAR || typ == TIMESTAMP || typ == DATE || typ == NEWDATE || typ == TIME || typ == DATETIME
    || typ == TIMESTAMP2 || typ == DATETIME2 || typ == TIME2
  }

  function CellBytes(lib: Library, data: bytes, pos: nat, typ: byte, metadata: nat, unsigned: bool): Result<Decoded> {
    if IsNumeric(typ) then NumericCell(lib, data, pos, typ, unsigned)
    else if IsTemporal(typ) then TemporalCell(lib, data, pos, typ, metadata)
    else if typ == NEWDECIMAL then
      var c :- DecimalCell(data, pos, metadata);
      // a bytes.Buffer that was never written to yields nil
      Ok((if c.0 == [] then None else Some(c.0), c.1))
    else StringCell(data, pos, typ, metadata)
  }

  // ---------- the two agree on lengths ----------

  /** The exception: beyond six fraction digits the scanner counts fraction bytes the decoder does not read. */
  predicate FractionTooWide(typ: byte, metadata: nat) {
    (typ == TIMESTAMP2 || typ == DATETIME2) && metadata > 6
  }

  /** Whenever the decoder succeeds, its length is the scanner's, except exactly in that case. */
  lemma LengthsAgree(lib: Library, data: bytes, pos: nat, typ: byte, metadata: nat, unsigned: bool)
    ensures var c := CellBytes(lib, data, pos, typ, metadata, unsigned);
            c.Ok? ==> (CellLength(data, pos, typ, metadata) == Ok(c.value.1) <==> !FractionTooWide(typ, metadata))
  {
    hide Decimal, SignedDecimal, DecimalText, FracDigits, TimeText, LE, BE;
  }

  /** The scanner gives the same length wherever the cell stands, as long as the slice holds the cell. */
  lemma CellLengthShift(data: bytes, lo: nat, hi: nat, p: nat, typ: byte, metadata: nat)
    requires lo <= hi <= |data|
    ensures var inside, outside := CellLength(data[lo..hi], p, typ, metadata), CellLength(data, lo + p, typ, metadata);
            && (inside.Ok? ==> outside == inside)
            && (outside.Ok? && p + outside.value <= hi - lo ==> inside == outside)
  {
    var n := if typ == VARCHAR || typ == VAR_STRING then VarcharPrefix(metadata)
             else if IsBlob(typ) then metadata else StringPrefix(metadata);
    TakeWiden(data, lo, hi, p, n);
    if p + n <= hi - lo {
      TakeShift(data, lo, hi, p, n);
    }
  }

  lemma TemporalShift(lib: Library, data: bytes, lo: nat, hi: nat, p: nat, typ: byte, metadata: nat)
    requires lo <= hi <= |data|
    ensures SameCell(TemporalCell(lib, data[lo..hi], p, typ, metadata), TemporalCell(lib, data, lo + p, typ, metadata),
                     hi - lo - p)
  {
    hide Take, LE, WithFraction, Time2Cell;
    if typ == TIMESTAMP2 {
      WithFractionShift(data, lo, hi, p, metadata, 4, lib.timestamp);
    } else if typ == DATETIME2 {
      WithFractionShift(data, lo, hi, p, metadata, 5, StoredDateTimeText);
    } else if typ == TIME2 {
      Time2Shift(data, lo, hi, p, metadata);
    } else {
      TakeWiden(data, lo, hi, p, 1);
      TakeWiden(data, lo, hi, p, 3);
      TakeWiden(data, lo, hi, p, 4);
      TakeWiden(data, lo, hi, p, 8);
    }
  }

  lemma PrefixedShift(data: bytes, lo: nat, hi: nat, p: nat, n: nat)
    requires lo <= hi <= |data|
    ensures SameCell(PrefixedCell(data[lo..hi], p, n), PrefixedCell(data, lo + p, n), hi - lo - p)
  {
    hide LE;
    TakeWiden(data, lo, hi, p, n);
    var b := Take(data[lo..hi], p, n);
    if b.Ok? {
      TakeWiden(data, lo, hi, p + n, LE(b.value));
    }
  }

  lemma StringShift(data: bytes, lo: nat, hi: nat, p: nat, typ: byte, metadata: nat)
    requires lo <= hi <= |data|
    ensures SameCell(StringCell(data[lo..hi], p, typ, metadata), StringCell(data, lo + p, typ, metadata), hi - lo - p)
  {
    hide Take, LE, PrefixedCell, BitBytes, VarcharPrefix, StringPrefix, Decimal;
    TakeWiden(data, lo, hi, p, 1);
    TakeWiden(data, lo, hi, p, 2);
    TakeWiden(data, lo, hi, p, BitBytes(metadata));
    TakeWiden(data, lo, hi, p, metadata % 256);
    PrefixedShift(data, lo, hi, p, VarcharPrefix(metadata));
    PrefixedShift(data, lo, hi, p, metadata);
    PrefixedShift(data, lo, hi, p, StringPrefix(metadata));
  }

  lemma NumericShift(lib: Library, data: bytes, lo: nat, hi: nat, p: nat, typ: byte, unsigned: bool)
    requires lo <= hi <= |data|
    ensures SameCell(NumericCell(lib, data[lo..hi], p, typ, unsigned), NumericCell(lib, data, lo + p, typ, unsigned),
                     hi - lo - p)
  {
    hide Take, LE, Decimal, SignedDecimal;
    TakeWiden(data, lo, hi, p, 1);
    TakeWiden(data, lo, hi, p, 2);
    TakeWiden(data, lo, hi, p, 3);
    TakeWiden(data, lo, hi, p, 4);
    TakeWiden(data, lo, hi, p, 8);
  }

  lemma DecimalShift(data: bytes, lo: nat, hi: nat, p: nat, metadata: nat)
    requires lo <= hi <= |data|
    ensures SameCell(DecimalCell(data[lo..hi], p, metadata), DecimalCell(data, lo + p, metadata), hi - lo - p)
  {
    hide DecimalText, Size, Precision, Scale;
    if Precision(metadata) >= Scale(metadata) {
      TakeWiden(data, lo, hi, p, Size(Precision(metadata) - Scale(metadata), Scale(metadata)));
    }
  }

  /** A cell decodes to the same text in a slice of the data as in the data itself, in both directions: what the
      decoder finds in a row slice is what stands in the event, and a cell of the event that lies in the slice
      is found there. */
  lemma CellBytesShift(lib: Library, data: bytes, lo: nat, hi: nat, p: nat, typ: byte, metadata: nat, unsigned: bool)
    requires lo <= hi <= |data|
    ensures SameCell(CellBytes(lib, data[lo..hi], p, typ, metadata, unsigned),
                     CellBytes(lib, data, lo + p, typ, metadata, unsigned), hi - lo - p)
  {
    hide NumericCell, TemporalCell, StringCell, DecimalText, Size, Precision, Scale, Take;
    if IsNumeric(typ) {
      NumericShift(lib, data, lo, hi, p, typ, unsigned);
    } else if IsTemporal(typ) {
      TemporalShift(lib, data, lo, hi, p, typ, metadata);
    } else if typ == NEWDECIMAL {
      hide DecimalCell;
      DecimalShift(data, lo, hi, p, metadata);
    } else {
      StringShift(data, lo, hi, p, typ, metadata);
    }
  }

  /** The decoded text of a DECIMAL is Go's nil, which the streamer also uses for NULL, exactly for a zero
      without fraction digits. */
  lemma DecimalZeroIsNil(lib: Library, negative: bool, whole: nat, frac: nat, intg: nat, scale: nat, rest: bytes,
                         unsigned: bool)
    requires intg + scale > 0 && scale < 256
    requires whole < Pow10(intg) && frac < Pow10(scale)
    ensures var magnitude := Magnitude(whole, frac, intg, scale);
            && |magnitude| > 0 && magnitude[0] < 128
            && var c := CellBytes(lib, Stored(negative, magnitude) + rest, 0, NEWDECIMAL,
                                  (intg + scale) * 256 + scale, unsigned);
            c.Ok? && (c.value.0 == None <==> !negative && whole == 0 && scale == 0)
  {
    hide DecimalCell, Stored, Magnitude, Decimal, Pow10, Size;
    DecimalRoundTrip(negative, whole, frac, intg, scale, rest);
    var cell := Stored(negative, Magnitude(whole, frac, intg, scale));
    var text := DecimalCell(cell + rest, 0, (intg + scale) * 256 + scale).value.0;
    if whole == 0 {
      NoBlanks(text);
    }
  }
}
