/** The cells of every column type in the server's own format, and what they decode to: type codes, metadata and
    cells are written out here independently of the decoder. */
module Columns {
  import opened Results
  import opened Bytes
  import opened Digits
  import opened Cells
  import opened TableMaps

  // ---------- types and their metadata ----------

  datatype Column =
    | IntegerColumn(width: nat)
    | YearColumn
    | DateColumn
    | NewDateColumn
    | TimeColumn
    | DateTimeColumn
    | TimestampColumn
    | NullColumn
    | FloatColumn
    | DoubleColumn
    | Timestamp2Column(digits: nat)
    | DateTime2Column(digits: nat)
    | Time2Column(digits: nat)
    | DecimalColumn(precision: nat, scale: nat)
    | VarcharColumn(max: nat)
    | VarStringColumn(max: nat)
    | CharColumn(max: nat)          // the type code of a CHAR leaves two bits for its length
    | EnumColumn(size: nat)         // as the server sends it: a CHAR whose metadata names the real type
    | SetColumn(size: nat)
    | PlainEnumColumn(size: nat)
    | PlainSetColumn(size: nat)
    | BlobColumn(code: byte, width: nat)
    | GeometryColumn(width: nat)
    | BitColumn(bits: nat)

  predicate Declarable(c: Column) {
    match c
    case IntegerColumn(w) => w in {1, 2, 3, 4, 8}
    case Timestamp2Column(m) => m <= 6
    case DateTime2Column(m) => m <= 6
    case Time2Column(m) => m <= 6
    case DecimalColumn(p, s) => 0 < p < 256 && s <= p
    case VarcharColumn(n) => n < 0x1_0000
    case VarStringColumn(n) => n < 0x1_0000
    case CharColumn(n) => n < 1024
    case EnumColumn(n) => n == 1 || n == 2
    case SetColumn(n) => 1 <= n <= 8
    case PlainEnumColumn(n) => n == 1 || n == 2
    case PlainSetColumn(n) => n < 256
    case BlobColumn(code, w) => 249 <= code <= 252 && 1 <= w <= 4
    case GeometryColumn(w) => 1 <= w <= 4
    case BitColumn(n) => n <= 64
    case _ => true
  }

  /** The type code in the table map. */
  function Code(c: Column): byte {
    match c
    case IntegerColumn(w) => if w == 1 then 1 else if w == 2 then 2 else if w == 3 then 9 else if w == 4 then 3 else 8
    case YearColumn => 13
    case DateColumn => 10
    case NewDateColumn => 14
    case TimeColumn => 11
    case DateTimeColumn => 12
    case TimestampColumn => 7
    case NullColumn => 6
    case FloatColumn => 4
    case DoubleColumn => 5
    case Timestamp2Column(_) => 17
    case DateTime2Column(_) => 18
    case Time2Column(_) => 19
    case DecimalColumn(_, _) => 246
    case VarcharColumn(_) => 15
    case VarStringColumn(_) => 253
    case CharColumn(_) => 254
    case EnumColumn(_) => 254
    case SetColumn(_) => 254
    case PlainEnumColumn(_) => 247
    case PlainSetColumn(_) => 248
    case BlobColumn(code, _) => code
    case GeometryColumn(_) => 255
    case BitColumn(_) => 16
  }

  /** The metadata bytes in the table map. */
  function Wire(c: Column): bytes
    requires Declarable(c)
  {
    match c
    case FloatColumn => [4]
    case DoubleColumn => [8]
    case Timestamp2Column(m) => [m]
    case DateTime2Column(m) => [m]
    case Time2Column(m) => [m]
    case DecimalColumn(p, s) => [p, s]
    case VarcharColumn(n) => [n % 256, n / 256]
    case VarStringColumn(n) => [n % 256, n / 256]
    case CharColumn(n) => [254 - n / 256 * 16, n % 256]
    case EnumColumn(n) => [247, n]
    case SetColumn(n) => [248, n]
    case PlainEnumColumn(n) => [247, n]
    case PlainSetColumn(n) => [248, n]
    case BlobColumn(_, w) => [w]
    case GeometryColumn(w) => [w]
    case BitColumn(n) => [n % 8, n / 8]
    case _ => []
  }

  /** What the decoder makes of them. */
  function Metadata(c: Column): nat
    requires Declarable(c)
  {
    match c
    case FloatColumn => 4
    case DoubleColumn => 8
    case Timestamp2Column(m) => m
    case DateTime2Column(m) => m
    case Time2Column(m) => m
    case DecimalColumn(p, s) => p * 256 + s
    case VarcharColumn(n) => n
    case VarStringColumn(n) => n
    case CharColumn(n) => (254 - n / 256 * 16) * 256 + n % 256
    case EnumColumn(n) => 247 * 256 + n
    case SetColumn(n) => 248 * 256 + n
    case PlainEnumColumn(n) => 247 * 256 + n
    case PlainSetColumn(n) => 248 * 256 + n
    case BlobColumn(_, w) => w
    case GeometryColumn(w) => w
    case BitColumn(n) => n / 8 * 256 + n % 8
    case _ => 0
  }

  /** The decoder reads every column's metadata, and reads over exactly its bytes. */
  lemma MetadataIsRead(c: Column, pre: bytes, post: bytes)
    requires Declarable(c)
    ensures MetadataRead(pre + Wire(c) + post, |pre|, Code(c)) == Ok((Metadata(c), |pre| + |Wire(c)|))
  {
    var data := pre + Wire(c) + post;
    assert data[|pre|..|pre| + |Wire(c)|] == Wire(c);
  }

  // ---------- cells ----------

  /** The cell, and nothing else, decodes to the text; the scanner gives it the same length. */
  predicate Decodes(lib: Library, c: Column, unsigned: bool, cell: bytes, text: bytes)
    requires Declarable(c)
  {
    && CellLength(cell, 0, Code(c), Metadata(c)) == Ok(|cell|)
    && CellBytes(lib, cell, 0, Code(c), Metadata(c), unsigned) == Ok((Some(text), |cell|))
  }

  /** It does so behind and in front of any other bytes. */
  lemma DecodesAnywhere(lib: Library, c: Column, unsigned: bool, pre: bytes, cell: bytes, post: bytes, text: bytes)
    requires Declarable(c) && Decodes(lib, c, unsigned, cell, text)
    ensures var data := pre + cell + post;
            && CellLength(data, |pre|, Code(c), Metadata(c)) == Ok(|cell|)
            && CellBytes(lib, data, |pre|, Code(c), Metadata(c), unsigned) == Ok((Some(text), |cell|))
  {
    hide CellBytes, CellLength, Code, Metadata;
    var data := pre + cell + post;
    assert data[|pre|..|pre| + |cell|] == cell;
    CellLengthShift(data, |pre|, |pre| + |cell|, 0, Code(c), Metadata(c));
    CellBytesShift(lib, data, |pre|, |pre| + |cell|, 0, Code(c), Metadata(c), unsigned);
  }

  lemma TakeAll(b: bytes)
    ensures Take(b, 0, |b|) == Ok(b)
  {
    assert b[0..|b|] == b;
  }

  // ---------- integers ----------

  /** The text is the canonical decimal of n: digits without a leading zero, behind '-' if n is negative. */
  predicate Denotes(text: bytes, n: int) {
    if n < 0 then text != [] && text[0] == 45 && Canonical(text[1..]) && Value(text[1..]) == -n
    else Canonical(text) && Value(text) == n
  }

  lemma DecimalDenotes(n: nat)
    ensures Denotes(Decimal(n), n)
  {
    hide Decimal;
    DecimalIsCanonical(n);
  }

  lemma SignedDecimalDenotes(n: int)
    ensures Denotes(SignedDecimal(n), n)
  {
    hide Decimal;
    if n < 0 {
      DecimalIsCanonical(-n);
      assert SignedDecimal(n)[1..] == Decimal(-n);
    } else {
      DecimalDenotes(n);
    }
  }

  /** A signed integer column stores two's complement, least significant byte first. */
  lemma SignedIntegerDecodes(lib: Library, w: nat, n: int) returns (text: bytes)
    requires w in {1, 2, 3, 4, 8} && 0 <= 2 * n + Pow256(w) < 2 * Pow256(w)
    ensures Decodes(lib, IntegerColumn(w), false, PutLE(if n < 0 then n + Pow256(w) else n, w), text)
    ensures Denotes(text, n)
  {
    hide Denotes, LE, PutLE, SignedDecimal, Pow256;
    var v := if n < 0 then n + Pow256(w) else n;
    text := SignedDecimal(n);
    SignedDecimalDenotes(n);
    LEPut(v, w);
    TakeAll(PutLE(v, w));
    assert SignExtended(v, w) == n;
  }

  lemma UnsignedIntegerDecodes(lib: Library, w: nat, n: nat) returns (text: bytes)
    requires w in {1, 2, 3, 4, 8} && n < Pow256(w)
    ensures Decodes(lib, IntegerColumn(w), true, PutLE(n, w), text)
    ensures Denotes(text, n)
  {
    hide Denotes, LE, PutLE, Decimal, Pow256;
    text := Decimal(n);
    DecimalDenotes(n);
    LEPut(n, w);
    TakeAll(PutLE(n, w));
  }

  /** YEAR stores the years after 1900; zero is the year 0000. */
  lemma YearDecodes(lib: Library, year: nat, unsigned: bool) returns (text: bytes)
    requires 1901 <= year <= 2155
    ensures Decodes(lib, YearColumn, unsigned, [year - 1900], text) && Denotes(text, year)
    ensures Decodes(lib, YearColumn, unsigned, [0], [48, 48, 48, 48])
  {
    hide Denotes, Decimal;
    text := Decimal(year);
    DecimalDenotes(year);
    TakeAll([year - 1900]);
    TakeAll([0]);
  }

  /** An ENUM decodes to the number of its value, however the table map names its type. */
  lemma EnumDecodes(lib: Library, size: nat, n: nat, unsigned: bool) returns (text: bytes)
    requires (size == 1 || size == 2) && n < Pow256(size)
    ensures Decodes(lib, EnumColumn(size), unsigned, PutLE(n, size), text)
    ensures Decodes(lib, PlainEnumColumn(size), unsigned, PutLE(n, size), text)
    ensures Denotes(text, n)
  {
    hide Denotes, LE, PutLE, Decimal, Pow256;
    text := Decimal(n);
    DecimalDenotes(n);
    LEPut(n, size);
    TakeAll(PutLE(n, size));
  }

  /** A SET decodes to its number, or, under its own type code, to its bytes. */
  lemma SetDecodes(lib: Library, size: nat, n: nat, unsigned: bool) returns (text: bytes)
    requires 1 <= size <= 8 && n < Pow256(size)
    ensures Decodes(lib, SetColumn(size), unsigned, PutLE(n, size), text) && Denotes(text, n)
    ensures Decodes(lib, PlainSetColumn(size), unsigned, PutLE(n, size), PutLE(n, size))
  {
    hide Denotes, LE, PutLE, Decimal, Pow256;
    text := Decimal(n);
    DecimalDenotes(n);
    LEPut(n, size);
    TakeAll(PutLE(n, size));
  }

  // ---------- what the libraries print ----------

  /** Floats and timestamps are printed by the libraries, from their bits and seconds. */
  lemma PrintedDecodes(lib: Library, n: nat, unsigned: bool)
    ensures n < Pow256(4) ==> Decodes(lib, FloatColumn, unsigned, PutLE(n, 4), lib.float32(n))
    ensures n < Pow256(8) ==> Decodes(lib, DoubleColumn, unsigned, PutLE(n, 8), lib.float64(n))
    ensures n < Pow256(4) ==> Decodes(lib, TimestampColumn, unsigned, PutLE(n, 4), lib.timestamp(n))
  {
    hide LE, PutLE, Pow256;
    LEPut(n, 4);
    LEPut(n, 8);
    TakeAll(PutLE(n, 4));
    TakeAll(PutLE(n, 8));
  }

  /** A column of type NULL has no bytes. */
  lemma NullHasNoBytes(data: bytes, pos: nat)
    ensures CellLength(data, pos, Code(NullColumn), Metadata(NullColumn)) == Ok(0)
  {
  }

  // ---------- strings ----------

  /** The width of the length in front of a string of at most max bytes: the least that holds max, and at least one. */
  function PrefixWidth(max: nat): nat {
    if max == 0 then 1 else LeastBytes(max + 1)
  }

  lemma PrefixWidthIs(max: nat)
    requires max < 0x1_0000
    ensures PrefixWidth(max) == (if max > 255 then 2 else 1) && max < Pow256(PrefixWidth(max))
  {
    hide LeastBytes;
    Pow256Values();
    if max > 0 { LeastBytesIs(max + 1, if max > 255 then 2 else 1); }
  }

  function Prefixed(v: bytes, w: nat): bytes {
    PutLE(|v|, w) + v
  }

  lemma PrefixedParts(v: bytes, w: nat)
    requires |v| < Pow256(w)
    ensures var cell := Prefixed(v, w);
            && |cell| == w + |v|
            && Take(cell, 0, w) == Ok(PutLE(|v|, w)) && LE(PutLE(|v|, w)) == |v| && Take(cell, w, |v|) == Ok(v)
  {
    hide LE, PutLE;
    LEPut(|v|, w);
    assert Prefixed(v, w)[0..w] == PutLE(|v|, w);
    assert Prefixed(v, w)[w..w + |v|] == v;
  }

  /** VARCHAR and CHAR: a length of the least width that holds the column's maximum, then the bytes. */
  lemma StringDecodes(lib: Library, max: nat, v: bytes, unsigned: bool)
    requires max < 0x1_0000 && |v| <= max
    ensures Decodes(lib, VarcharColumn(max), unsigned, Prefixed(v, PrefixWidth(max)), v)
    ensures Decodes(lib, VarStringColumn(max), unsigned, Prefixed(v, PrefixWidth(max)), v)
    ensures max < 1024 ==> Decodes(lib, CharColumn(max), unsigned, Prefixed(v, PrefixWidth(max)), v)
  {
    hide LE, PutLE, Prefixed, PrefixWidth, Take, Pow256, Metadata;
    PrefixWidthIs(max);
    PrefixedParts(v, PrefixWidth(max));
    VarcharMetadata(max);
    VarStringDecodes(lib, max, v, unsigned);
    if max < 1024 { CharDecodes(lib, max, v, unsigned); }
  }

  lemma VarcharMetadata(max: nat)
    requires max < 0x1_0000
    ensures Metadata(VarcharColumn(max)) == max == Metadata(VarStringColumn(max))
  {
  }

  lemma VarStringDecodes(lib: Library, max: nat, v: bytes, unsigned: bool)
    requires max < 0x1_0000 && |v| <= max
    ensures Decodes(lib, VarStringColumn(max), unsigned, Prefixed(v, PrefixWidth(max)), v)
  {
    hide LE, PutLE, Prefixed, PrefixWidth, Take, Pow256;
    PrefixWidthIs(max);
    PrefixedParts(v, PrefixWidth(max));
  }

  lemma CharDecodes(lib: Library, max: nat, v: bytes, unsigned: bool)
    requires max < 1024 && |v| <= max
    ensures Decodes(lib, CharColumn(max), unsigned, Prefixed(v, PrefixWidth(max)), v)
  {
    hide LE, PutLE, Prefixed, PrefixWidth, Take, Pow256, Metadata;
    PrefixWidthIs(max);
    PrefixedParts(v, PrefixWidth(max));
    CharMetadata(max);
  }

  lemma CharMetadata(max: nat)
    requires max < 1024
    ensures var m := Metadata(CharColumn(max));
            m / 256 != ENUM && m / 256 != SET && StringPrefix(m) == if max > 255 then 2 else 1
  {
    var m := Metadata(CharColumn(max));
    assert m / 256 == 254 - max / 256 * 16 && m % 256 == max % 256;
    assert m / 4096 == m / 256 / 16;
    assert (254 - max / 256 * 16) / 16 == 15 - max / 256;
  }

  /** BLOBs, TEXTs and geometries: a length as wide as the metadata says, then the bytes. */
  lemma BlobDecodes(lib: Library, code: byte, w: nat, v: bytes, unsigned: bool)
    requires 249 <= code <= 252 && 1 <= w <= 4 && |v| < Pow256(w)
    ensures Decodes(lib, BlobColumn(code, w), unsigned, Prefixed(v, w), v)
    ensures Decodes(lib, GeometryColumn(w), unsigned, Prefixed(v, w), v)
  {
    hide LE, PutLE, Prefixed, Take, Pow256;
    PrefixedParts(v, w);
  }

  /** BIT: the least bytes that hold the bits, shown as they are. */
  lemma BitDecodes(lib: Library, bits: nat, v: bytes, unsigned: bool)
    requires bits <= 64 && 8 * (|v| - 1) < bits <= 8 * |v|
    ensures Decodes(lib, BitColumn(bits), unsigned, v, v)
  {
    hide Take, Metadata, BitBytes;
    TakeAll(v);
    BitMetadata(bits, |v|);
  }

  lemma BitMetadata(bits: nat, l: nat)
    requires bits <= 64 && 8 * (l - 1) < bits <= 8 * l
    ensures BitBytes(Metadata(BitColumn(bits))) == l
  {
    var m := Metadata(BitColumn(bits));
    assert m / 256 == bits / 8 && m % 256 == bits % 8;
    hide Metadata;
    assert BitBytes(m) == (bits + 7) / 8;
  }

  // ---------- what is refused ----------

  /** Type codes no column has, JSON among them, are refused by scanner and decoder. */
  lemma OtherTypesAreRefused(lib: Library, data: bytes, pos: nat, typ: byte, metadata: nat, unsigned: bool)
    requires typ == 0 || 20 <= typ <= 245
    ensures CellLength(data, pos, typ, metadata) == Err(UnsupportedType)
    ensures CellBytes(lib, data, pos, typ, metadata, unsigned) == Err(UnsupportedType)
  {
  }

  /** Length widths other than one to four bytes, and ENUMs of other than one or two, are refused. */
  lemma OtherMetadataIsRefused(lib: Library, data: bytes, pos: nat, typ: byte, metadata: nat, unsigned: bool)
    ensures (249 <= typ <= 252 || typ == 255) && (metadata == 0 || metadata > 4) ==>
              CellLength(data, pos, typ, metadata) == Err(UnsupportedMetadata)
              && CellBytes(lib, data, pos, typ, metadata, unsigned) == Err(UnsupportedMetadata)
    ensures (typ == 247 || (typ == 254 && metadata / 256 == 247)) && metadata % 256 != 1 && metadata % 256 != 2 ==>
              CellBytes(lib, data, pos, typ, metadata, unsigned) == Err(UnsupportedMetadata)
  {
  }
}
