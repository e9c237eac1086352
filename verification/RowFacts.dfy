/** Rows events: rows tile the body, and the encoder is inverted. */
module RowFacts {
  import opened Results
  import opened Bytes
  import opened Bitmaps
  import opened Cells
  import opened RowEvents

  // ---------- scanning does not depend on the surrounding slice ----------

  lemma {:induction false} ScanWiden(data: bytes, lo: nat, hi: nat, p: nat, tm: TableMap, present: Bitmap,
                                     nulls: Bitmap, c: nat, vi: nat)
    requires lo <= hi <= |data|
    requires ScanCells(data[lo..hi], p, tm, present, nulls, c, vi).Ok?
    ensures ScanCells(data, lo + p, tm, present, nulls, c, vi)
            == Ok(lo + ScanCells(data[lo..hi], p, tm, present, nulls, c, vi).value)
    decreases present.count - c
  {
    hide CellLength, Bit;
    if c < present.count {
      if !Bit(present, c).value {
        ScanWiden(data, lo, hi, p, tm, present, nulls, c + 1, vi);
      } else if Bit(nulls, vi).value {
        ScanWiden(data, lo, hi, p, tm, present, nulls, c + 1, vi + 1);
      } else {
        CellLengthShift(data, lo, hi, p, tm.types[c], tm.metadata[c]);
        var l := CellLength(data[lo..hi], p, tm.types[c], tm.metadata[c]).value;
        assert lo + (p + l) == lo + p + l;
        ScanWiden(data, lo, hi, p + l, tm, present, nulls, c + 1, vi + 1);
      }
    }
  }

  lemma {:induction false} ScanNarrow(data: bytes, lo: nat, hi: nat, p: nat, tm: TableMap, present: Bitmap,
                                      nulls: Bitmap, c: nat, vi: nat)
    requires lo <= hi <= |data|
    requires var r := ScanCells(data, lo + p, tm, present, nulls, c, vi); r.Ok? && r.value <= hi
    ensures ScanCells(data[lo..hi], p, tm, present, nulls, c, vi)
            == Ok(ScanCells(data, lo + p, tm, present, nulls, c, vi).value - lo)
    decreases present.count - c
  {
    hide CellLength, Bit;
    if c < present.count {
      if !Bit(present, c).value {
        ScanNarrow(data, lo, hi, p, tm, present, nulls, c + 1, vi);
      } else if Bit(nulls, vi).value {
        ScanNarrow(data, lo, hi, p, tm, present, nulls, c + 1, vi + 1);
      } else {
        CellLengthShift(data, lo, hi, p, tm.types[c], tm.metadata[c]);
        var l := CellLength(data, lo + p, tm.types[c], tm.metadata[c]).value;
        assert lo + (p + l) == lo + p + l;
        assert ScanCells(data, lo + p + l, tm, present, nulls, c + 1, vi + 1).value >= lo + p + l;
        ScanNarrow(data, lo, hi, p + l, tm, present, nulls, c + 1, vi + 1);
      }
    }
  }

  // ---------- well-formed rows, and their bytes ----------

  /** Cells exactly delimited by the scanner, under a null bitmap sized by the present columns. */
  predicate SideFits(has: bool, tm: TableMap, present: Bitmap, nulls: Bitmap, cells: bytes)
    requires Sized(present)
  {
    if has then
      nulls.count == BitCount(present) && Sized(nulls)
      && ScanCells(cells, 0, tm, present, nulls, 0, 0) == Ok(|cells|)
    else nulls == NO_BITMAP && cells == []
  }

  predicate RowFits(row: Row, tm: TableMap, shape: Shape)
    requires shape.Valid()
  {
    SideFits(shape.hasIdentify, tm, shape.identify, row.nullIdentifyColumns, row.identify)
    && SideFits(shape.hasData, tm, shape.data, row.nullColumns, row.data)
  }

  predicate RowsFit(rows: seq<Row>, tm: TableMap, shape: Shape)
    requires shape.Valid()
  {
    forall i :: 0 <= i < |rows| ==> RowFits(rows[i], tm, shape)
  }

  function EncodeRow(row: Row, shape: Shape): bytes {
    (if shape.hasIdentify then row.nullIdentifyColumns.data + row.identify else [])
    + if shape.hasData then row.nullColumns.data + row.data else []
  }

  function EncodeRows(rows: seq<Row>, shape: Shape): bytes {
    if rows == [] then [] else EncodeRow(rows[0], shape) + EncodeRows(rows[1..], shape)
  }

  function EncodeSide(has: bool, nulls: Bitmap, cells: bytes): bytes {
    if has then nulls.data + cells else []
  }

  // ---------- one side of a row ----------

  /** Reading a side cuts out a fitting side, and its bytes are the bytes read. */
  lemma ReadSideTiles(has: bool, data: bytes, pos: nat, tm: TableMap, present: Bitmap)
    requires Sized(present) && pos <= |data|
    ensures var r := ReadSide(has, data, pos, tm, present);
            r.Ok? ==> pos <= r.value.next <= |data|
                      && SideFits(has, tm, present, r.value.nulls, r.value.cells)
                      && EncodeSide(has, r.value.nulls, r.value.cells) == data[pos..r.value.next]
  {
    hide BitCount;
    var r := ReadSide(has, data, pos, tm, present);
    if has && r.Ok? {
      hide ScanCells;
      var start := pos + ByteSize(BitCount(present));
      ScanNarrow(data, start, r.value.next, 0, tm, present, r.value.nulls, 0, 0);
      assert data[pos..start] + data[start..r.value.next] == data[pos..r.value.next];
    }
  }

  /** A fitting side is read back from its bytes, wherever they stand. */
  lemma ReadSideBack(has: bool, pre: bytes, nulls: Bitmap, cells: bytes, post: bytes, tm: TableMap, present: Bitmap)
    requires Sized(present) && SideFits(has, tm, present, nulls, cells)
    ensures var side := EncodeSide(has, nulls, cells);
            ReadSide(has, pre + side + post, |pre|, tm, present) == Ok(Image(nulls, cells, |pre| + |side|))
  {
    hide BitCount;
    if has {
      hide ScanCells;
      var data := pre + EncodeSide(has, nulls, cells) + post;
      var start := |pre| + |nulls.data|;
      var end := start + |cells|;
      assert data[|pre|..start] == nulls.data;
      assert data[start..end] == cells;
      ScanWiden(data, start, end, 0, tm, present, nulls, 0, 0);
    }
  }

  // ---------- one row ----------

  lemma ReadRowTiles(data: bytes, pos: nat, tm: TableMap, shape: Shape)
    requires shape.Valid() && pos <= |data|
    ensures var r := ReadRow(data, pos, tm, shape);
            r.Ok? ==> pos <= r.value.1 <= |data| && RowFits(r.value.0, tm, shape)
                      && EncodeRow(r.value.0, shape) == data[pos..r.value.1]
  {
    hide ReadSide, SideFits;
    ReadSideTiles(shape.hasIdentify, data, pos, tm, shape.identify);
    var before := ReadSide(shape.hasIdentify, data, pos, tm, shape.identify);
    if before.Ok? {
      ReadSideTiles(shape.hasData, data, before.value.next, tm, shape.data);
      var after := ReadSide(shape.hasData, data, before.value.next, tm, shape.data);
      if after.Ok? {
        assert data[pos..before.value.next] + data[before.value.next..after.value.next] == data[pos..after.value.next];
      }
    }
  }

  lemma ReadRowBack(pre: bytes, row: Row, post: bytes, tm: TableMap, shape: Shape)
    requires shape.Valid() && RowFits(row, tm, shape)
    ensures ReadRow(pre + EncodeRow(row, shape) + post, |pre|, tm, shape)
            == Ok((row, |pre| + |EncodeRow(row, shape)|))
  {
    hide ReadSide, SideFits;
    var a := EncodeSide(shape.hasIdentify, row.nullIdentifyColumns, row.identify);
    var b := EncodeSide(shape.hasData, row.nullColumns, row.data);
    var data := pre + EncodeRow(row, shape) + post;
    assert EncodeRow(row, shape) == a + b;
    assert data == pre + a + (b + post);
    ReadSideBack(shape.hasIdentify, pre, row.nullIdentifyColumns, row.identify, b + post, tm, shape.identify);
    assert data == (pre + a) + b + post;
    ReadSideBack(shape.hasData, pre + a, row.nullColumns, row.data, post, tm, shape.data);
    if !shape.hasIdentify {
      NoSide(tm, shape.identify, row.nullIdentifyColumns, row.identify);
    }
    if !shape.hasData {
      NoSide(tm, shape.data, row.nullColumns, row.data);
    }
  }

  lemma NoSide(tm: TableMap, present: Bitmap, nulls: Bitmap, cells: bytes)
    requires Sized(present) && SideFits(false, tm, present, nulls, cells)
    ensures nulls == NO_BITMAP && cells == []
  {
  }

  // ---------- progress ----------

  lemma {:induction false} NothingPresent(b: Bitmap, i: nat, n: nat)
    requires n <= 8 * |b.data| && CountBelow(b, n) == 0 && i < n
    ensures Bit(b, i) == Ok(false)
  {
    if i < n - 1 {
      NothingPresent(b, i, n - 1);
    }
  }

  lemma {:induction false} ScanNothing(data: bytes, pos: nat, tm: TableMap, present: Bitmap, nulls: Bitmap, c: nat,
                                       vi: nat)
    requires Sized(present) && BitCount(present) == 0
    ensures ScanCells(data, pos, tm, present, nulls, c, vi) == Ok(pos)
    decreases present.count - c
  {
    if c < present.count {
      NothingPresent(present, c, present.count);
      ScanNothing(data, pos, tm, present, nulls, c + 1, vi);
    }
  }

  /** A row consumes bytes exactly when a column is present. */
  lemma RowProgress(data: bytes, pos: nat, tm: TableMap, shape: Shape)
    requires shape.Valid() && pos <= |data|
    ensures var r := ReadRow(data, pos, tm, shape);
            && (r.Ok? ==> (r.value.1 > pos <==> shape.AnyPresent()))
            && (!shape.AnyPresent() ==> r.Ok?)
  {
    hide BitCount;
    assert BitCount(NO_BITMAP) == 0 by { CountNone(); }
    if BitCount(shape.identify) == 0 { SideNothing(shape.hasIdentify, data, pos, tm, shape.identify); }
    if BitCount(shape.data) == 0 { SideNothing(shape.hasData, data, pos, tm, shape.data); }
  }

  lemma CountNone()
    ensures BitCount(NO_BITMAP) == 0
  {
  }

  lemma SideNothing(has: bool, data: bytes, pos: nat, tm: TableMap, present: Bitmap)
    requires Sized(present) && BitCount(present) == 0 && pos <= |data|
    ensures var r := ReadSide(has, data, pos, tm, present); r.Ok? && r.value.next == pos
  {
    if has {
      ScanNothing(data, pos, tm, present, Bitmap(data[pos..pos], 0), 0, 0);
    }
  }

  // ---------- all rows: tiling, termination, and the exact inverse ----------

  /** The rows are well-formed, and laid end to end they are the body: no gap, no overlap. */
  lemma {:induction false} RowsTile(data: bytes, pos: nat, tm: TableMap, shape: Shape)
    requires shape.Valid() && pos <= |data|
    ensures var r := ReadRows(data, pos, tm, shape);
            r.Ok? ==> RowsFit(r.value, tm, shape) && EncodeRows(r.value, shape) == data[pos..]
                      && (r.value != [] ==> shape.AnyPresent())
    decreases |data| - pos
  {
    hide ReadRow, RowFits, EncodeRow;
    var r := ReadRows(data, pos, tm, shape);
    if pos < |data| && r.Ok? {
      ReadRowTiles(data, pos, tm, shape);
      RowProgress(data, pos, tm, shape);
      var row := ReadRow(data, pos, tm, shape).value;
      RowsTile(data, row.1, tm, shape);
      assert r.value[0] == row.0 && r.value[1..] == ReadRows(data, row.1, tm, shape).value;
      assert data[pos..row.1] + data[row.1..] == data[pos..];
    }
  }

  /** Fitting rows are read back from their bytes. */
  lemma {:induction false} RowsBack(pre: bytes, rows: seq<Row>, tm: TableMap, shape: Shape)
    requires shape.Valid() && RowsFit(rows, tm, shape) && (rows != [] ==> shape.AnyPresent())
    ensures ReadRows(pre + EncodeRows(rows, shape), |pre|, tm, shape) == Ok(rows)
    decreases |rows|
  {
    hide ReadRow, RowFits, EncodeRow;
    if rows == [] {
      assert pre + EncodeRows(rows, shape) == pre;
    } else {
      var row := EncodeRow(rows[0], shape);
      var post := EncodeRows(rows[1..], shape);
      var data := pre + EncodeRows(rows, shape);
      assert data == pre + row + post;
      ReadRowBack(pre, rows[0], post, tm, shape);
      RowProgress(data, |pre|, tm, shape);
      RowsBack(pre + row, rows[1..], tm, shape);
      assert rows == [rows[0]] + rows[1..];
    }
  }

  /** The row loop never returns exactly when no column is present and there is a body to read. */
  lemma {:induction false} RowsDivergeExactly(data: bytes, pos: nat, tm: TableMap, shape: Shape)
    requires shape.Valid() && pos <= |data|
    ensures ReadRows(data, pos, tm, shape) == Err(Diverges) <==> pos < |data| && !shape.AnyPresent()
    decreases |data| - pos
  {
    hide ReadRow;
    if pos < |data| {
      RowProgress(data, pos, tm, shape);
      ReadRowTiles(data, pos, tm, shape);
      RowDoesNotDiverge(data, pos, tm, shape);
      var row := ReadRow(data, pos, tm, shape);
      if row.Ok? && row.value.1 > pos {
        RowsDivergeExactly(data, row.value.1, tm, shape);
      }
    }
  }

  lemma {:induction false} ScanDoesNotDiverge(data: bytes, pos: nat, tm: TableMap, present: Bitmap, nulls: Bitmap,
                                              c: nat, vi: nat)
    ensures ScanCells(data, pos, tm, present, nulls, c, vi) != Err(Diverges)
    decreases present.count - c
  {
    hide Bit;
    BitDoesNotDiverge(present, c);
    BitDoesNotDiverge(nulls, vi);
    if c < present.count && Bit(present, c).Ok? {
      if !Bit(present, c).value {
        ScanDoesNotDiverge(data, pos, tm, present, nulls, c + 1, vi);
      } else if Bit(nulls, vi).Ok? {
        if Bit(nulls, vi).value {
          ScanDoesNotDiverge(data, pos, tm, present, nulls, c + 1, vi + 1);
        } else if c < |tm.types| && c < |tm.metadata| {
          var l := CellLength(data, pos, tm.types[c], tm.metadata[c]);
          if l.Ok? {
            ScanDoesNotDiverge(data, pos + l.value, tm, present, nulls, c + 1, vi + 1);
          }
        }
      }
    }
  }

  lemma BitDoesNotDiverge(b: Bitmap, i: nat)
    ensures Bit(b, i) != Err(Diverges)
  {
  }

  lemma RowDoesNotDiverge(data: bytes, pos: nat, tm: TableMap, shape: Shape)
    requires shape.Valid()
    ensures ReadRow(data, pos, tm, shape) != Err(Diverges)
  {
    hide ReadSide;
    SideDoesNotDiverge(shape.hasIdentify, data, pos, tm, shape.identify);
    var before := ReadSide(shape.hasIdentify, data, pos, tm, shape.identify);
    if before.Ok? {
      SideDoesNotDiverge(shape.hasData, data, before.value.next, tm, shape.data);
    }
  }

  lemma SideDoesNotDiverge(has: bool, data: bytes, pos: nat, tm: TableMap, present: Bitmap)
    requires Sized(present)
    ensures ReadSide(has, data, pos, tm, present) != Err(Diverges)
  {
    hide BitCount, ScanCells;
    var b := NewBitmap(data, pos, BitCount(present));
    if b.Ok? {
      ScanDoesNotDiverge(data, b.value.1, tm, present, b.value.0, 0, 0);
    }
  }

  /** The row reader is the exact inverse of laying well-formed rows end to end. */
  lemma RowsExact(data: bytes, pos: nat, tm: TableMap, shape: Shape, rows: seq<Row>)
    requires shape.Valid() && pos <= |data|
    ensures ReadRows(data, pos, tm, shape) == Ok(rows)
            <==> RowsFit(rows, tm, shape) && EncodeRows(rows, shape) == data[pos..]
                 && (rows != [] ==> shape.AnyPresent())
  {
    hide ReadRows, RowsFit, EncodeRows;
    RowsTile(data, pos, tm, shape);
    if RowsFit(rows, tm, shape) && EncodeRows(rows, shape) == data[pos..] && (rows != [] ==> shape.AnyPresent()) {
      assert data[..pos] + data[pos..] == data;
      RowsBack(data[..pos], rows, tm, shape);
    }
  }
}
