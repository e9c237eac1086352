/** The streamer's own walk over the cells of a row, independent of the scan that cut the row out. */
module RowWalk {
  import opened Results
  import opened Bytes
  import opened Bitmaps
  import opened Cells
  import opened RowEvents
  import opened RowFacts

  datatype MysqlTableName = MysqlTableName(dbName: bytes, tableName: bytes)

  datatype MysqlColumn = MysqlColumn(field: bytes, unsignedInt: bool)

  datatype MysqlTable = MysqlTable(name: MysqlTableName, columns: seq<MysqlColumn>)

  datatype TableCache = TableCache(tableMap: TableMap, table: MysqlTable)

  datatype ColumnData = ColumnData(field: bytes, typ: byte, isEmpty: bool, data: Option<bytes>)

  datatype RowData = RowData(columns: seq<ColumnData>)

  /** The columns from c on, decoded from pos, and the cursor after them. */
  function WalkCells(lib: Library, tc: TableCache, data: bytes, pos: nat, present: Bitmap, nulls: Bitmap, c: nat,
                     vi: nat)
    : (r: Result<(seq<ColumnData>, nat)>)
    ensures r.Ok? && c <= present.count ==> |r.value.0| == present.count - c
    decreases present.count - c
  {
    if c >= present.count then Ok(([], pos))
    else
      var column :- At(tc.table.columns, c);
      var typ :- At(tc.tableMap.types, c);
      var here :- Bit(present, c);
      if !here then
        var rest :- WalkCells(lib, tc, data, pos, present, nulls, c + 1, vi);
        Ok(([ColumnData(column.field, typ, true, None)] + rest.0, rest.1))
      else
        var isNull :- Bit(nulls, vi);
        if isNull then
          var rest :- WalkCells(lib, tc, data, pos, present, nulls, c + 1, vi + 1);
          Ok(([ColumnData(column.field, typ, false, None)] + rest.0, rest.1))
        else
          var metadata :- At(tc.tableMap.metadata, c);
          var cell :- CellBytes(lib, data, pos, typ, metadata, column.unsignedInt);
          var rest :- WalkCells(lib, tc, data, pos + cell.1, present, nulls, c + 1, vi + 1);
          Ok(([ColumnData(column.field, typ, false, cell.0)] + rest.0, rest.1))
  }

  function WalkRow(lib: Library, tc: TableCache, data: bytes, present: Bitmap, nulls: Bitmap)
    : Result<(seq<ColumnData>, nat)>
  {
    if present.count != |tc.table.columns| then Err(ColumnsUnequal)
    else WalkCells(lib, tc, data, 0, present, nulls, 0, 0)
  }

  function GetValuesFromRow(lib: Library, tc: TableCache, rs: RowsEvent, i: nat): Result<RowData>
    requires i < |rs.rows|
  {
    var r :- WalkRow(lib, tc, rs.rows[i].data, rs.dataColumns, rs.rows[i].nullColumns);
    Ok(RowData(r.0))
  }

  function GetIdentifiesFromRow(lib: Library, tc: TableCache, rs: RowsEvent, i: nat): Result<RowData>
    requires i < |rs.rows|
  {
    var r :- WalkRow(lib, tc, rs.rows[i].identify, rs.identifyColumns, rs.rows[i].nullIdentifyColumns);
    Ok(RowData(r.0))
  }

  // ---------- the loop ----------

  function Join(columns: seq<ColumnData>, r: Result<(seq<ColumnData>, nat)>): (all: Result<(seq<ColumnData>, nat)>)
    ensures columns == [] ==> all == r
  {
    if r.Ok? then
      assert columns == [] ==> columns + r.value.0 == r.value.0;
      Ok((columns + r.value.0, r.value.1))
    else r
  }

  lemma JoinStep(columns: seq<ColumnData>, column: ColumnData, r: Result<(seq<ColumnData>, nat)>)
    ensures Join(columns + [column], r)
            == Join(columns, if r.Ok? then Ok(([column] + r.value.0, r.value.1)) else r)
  {
    if r.Ok? {
      assert columns + [column] + r.value.0 == columns + ([column] + r.value.0);
    }
  }

  method DecodeRow(lib: Library, tc: TableCache, data: bytes, present: Bitmap, nulls: Bitmap)
    returns (r: Result<(seq<ColumnData>, nat)>)
    ensures r == WalkRow(lib, tc, data, present, nulls)
  {
    hide CellBytes, Bit, Join;
    if present.count != |tc.table.columns| {
      return Err(ColumnsUnequal);
    }
    var valueIndex, pos := 0, 0;
    var columns := [];
    for c := 0 to present.count
      invariant Join(columns, WalkCells(lib, tc, data, pos, present, nulls, c, valueIndex))
             == WalkCells(lib, tc, data, 0, present, nulls, 0, 0)
    {
      assert forall e :: Join(columns, Err(e)) == Err(e) by { JoinErr(columns); }
      if c >= |tc.tableMap.types| {
        return Err(OutOfRange);
      }
      var column := ColumnData(tc.table.columns[c].field, tc.tableMap.types[c], false, None);
      var here := Bit(present, c);
      if here.Err? {
        return Err(here.error);
      }
      if !here.value {
        column := column.(isEmpty := true);
        JoinStep(columns, column, WalkCells(lib, tc, data, pos, present, nulls, c + 1, valueIndex));
        columns := columns + [column];
        continue;
      }
      var isNull := Bit(nulls, valueIndex);
      if isNull.Err? {
        return Err(isNull.error);
      }
      if isNull.value {
        JoinStep(columns, column, WalkCells(lib, tc, data, pos, present, nulls, c + 1, valueIndex + 1));
        columns := columns + [column];
        valueIndex := valueIndex + 1;
        continue;
      }
      if c >= |tc.tableMap.metadata| {
        return Err(OutOfRange);
      }
      var cell := CellBytes(lib, data, pos, tc.tableMap.types[c], tc.tableMap.metadata[c],
                            tc.table.columns[c].unsignedInt);
      if cell.Err? {
        return Err(cell.error);
      }
      column := column.(data := cell.value.0);
      JoinStep(columns, column, WalkCells(lib, tc, data, pos + cell.value.1, present, nulls, c + 1, valueIndex + 1));
      columns := columns + [column];
      pos := pos + cell.value.1;
      valueIndex := valueIndex + 1;
    }
    JoinNothing(columns, pos);
    r := Ok((columns, pos));
  }

  lemma JoinErr(columns: seq<ColumnData>)
    ensures forall e :: Join(columns, Err(e)) == Err(e)
  {
  }

  lemma JoinNothing(columns: seq<ColumnData>, pos: nat)
    ensures Join(columns, Ok(([], pos))) == Ok((columns, pos))
  {
    assert columns + [] == columns;
  }

  // ---------- the two walks agree ----------

  /** Where the scan stands when it reaches each column from c on. */
  function Starts(data: bytes, pos: nat, tm: TableMap, present: Bitmap, nulls: Bitmap, c: nat, vi: nat): (s: seq<nat>)
    requires ScanCells(data, pos, tm, present, nulls, c, vi).Ok?
    ensures c <= present.count ==> |s| == present.count - c
    decreases present.count - c
  {
    if c >= present.count then []
    else if !Bit(present, c).value then [pos] + Starts(data, pos, tm, present, nulls, c + 1, vi)
    else if Bit(nulls, vi).value then [pos] + Starts(data, pos, tm, present, nulls, c + 1, vi + 1)
    else
      var l := CellLength(data, pos, tm.types[c], tm.metadata[c]).value;
      [pos] + Starts(data, pos + l, tm, present, nulls, c + 1, vi + 1)
  }

  /** Column j of a row: absent, NULL, or what stands in the event's data at `start`. Null bits are counted
      among the present columns. */
  predicate ColumnIs(lib: Library, tc: TableCache, data: bytes, present: Bitmap, nulls: Bitmap, j: nat, start: nat,
                     column: ColumnData)
    requires Sized(present) && j < present.count
  {
    && j < |tc.table.columns| && j < |tc.tableMap.types|
    && column.field == tc.table.columns[j].field && column.typ == tc.tableMap.types[j]
    && Bit(present, j).Ok?
    && column.isEmpty == !Bit(present, j).value
    && if !Bit(present, j).value then column.data == None
       else
         var isNull := Bit(nulls, CountBelow(present, j));
         isNull.Ok?
         && if isNull.value then column.data == None
            else
              j < |tc.tableMap.metadata|
              && var cell := CellBytes(lib, data, start, tc.tableMap.types[j], tc.tableMap.metadata[j],
                                       tc.table.columns[j].unsignedInt);
              cell.Ok? && column.data == cell.value.0
  }

  /** The columns from c on, each decoded from its start. */
  predicate ColumnsAre(lib: Library, tc: TableCache, data: bytes, present: Bitmap, nulls: Bitmap, c: nat,
                       starts: seq<nat>, columns: seq<ColumnData>)
    requires Sized(present)
  {
    && c + |columns| == present.count && |starts| == |columns|
    && forall i :: 0 <= i < |columns| ==> ColumnIs(lib, tc, data, present, nulls, c + i, starts[i], columns[i])
  }

  lemma ColumnsCons(lib: Library, tc: TableCache, data: bytes, present: Bitmap, nulls: Bitmap, c: nat,
                    starts: seq<nat>, columns: seq<ColumnData>)
    requires Sized(present) && c < present.count && starts != [] && columns != []
    requires ColumnIs(lib, tc, data, present, nulls, c, starts[0], columns[0])
    requires ColumnsAre(lib, tc, data, present, nulls, c + 1, starts[1..], columns[1..])
    ensures ColumnsAre(lib, tc, data, present, nulls, c, starts, columns)
  {
    hide ColumnIs;
    forall i | 0 <= i < |columns|
      ensures ColumnIs(lib, tc, data, present, nulls, c + i, starts[i], columns[i])
    {
      if i > 0 {
        assert columns[1..][i - 1] == columns[i] && starts[1..][i - 1] == starts[i];
        assert c + 1 + (i - 1) == c + i;
      }
    }
  }

  /** The metadata MySQL writes: no more than six fraction digits. */
  predicate FractionsFit(tm: TableMap) {
    forall c :: 0 <= c < |tm.types| && c < |tm.metadata| ==> !FractionTooWide(tm.types[c], tm.metadata[c])
  }

  /** One column of the walk. */
  lemma WalkStep(lib: Library, tc: TableCache, data: bytes, p: nat, present: Bitmap, nulls: Bitmap, c: nat, vi: nat)
    returns (next: nat, vi': nat)
    requires c < present.count && WalkCells(lib, tc, data, p, present, nulls, c, vi).Ok?
    ensures c < |tc.table.columns| && c < |tc.tableMap.types| && Bit(present, c).Ok?
    ensures vi' == if Bit(present, c).value then vi + 1 else vi
    ensures Bit(present, c).value ==> Bit(nulls, vi).Ok?
    ensures var decoded := Bit(present, c).value && !Bit(nulls, vi).value;
            if decoded then
              c < |tc.tableMap.metadata|
              && var cell := CellBytes(lib, data, p, tc.tableMap.types[c], tc.tableMap.metadata[c],
                                       tc.table.columns[c].unsignedInt);
              cell.Ok? && next == p + cell.value.1
            else next == p
    ensures var walk, rest := WalkCells(lib, tc, data, p, present, nulls, c, vi),
                              WalkCells(lib, tc, data, next, present, nulls, c + 1, vi');
            rest.Ok? && walk.value.0 != [] && walk.value.0[1..] == rest.value.0 && walk.value.1 == rest.value.1
  {
    hide CellBytes, Bit;
    next := p;
    if !Bit(present, c).value {
      vi' := vi;
    } else {
      vi' := vi + 1;
      if !Bit(nulls, vi).value {
        next := p + CellBytes(lib, data, p, tc.tableMap.types[c], tc.tableMap.metadata[c],
                              tc.table.columns[c].unsignedInt).value.1;
      }
    }
    assert WalkCells(lib, tc, data, p, present, nulls, c, vi).value.0[1..]
        == WalkCells(lib, tc, data, next, present, nulls, c + 1, vi').value.0;
  }

  /** The scan makes the same step, on the whole data. */
  lemma ScanStep(data: bytes, pos: nat, next: nat, tm: TableMap, present: Bitmap, nulls: Bitmap, c: nat, vi: nat,
                 vi': nat)
    requires c < present.count && c < |tm.types| && Bit(present, c).Ok?
    requires vi' == if Bit(present, c).value then vi + 1 else vi
    requires Bit(present, c).value ==> Bit(nulls, vi).Ok?
    requires if Bit(present, c).value && !Bit(nulls, vi).value
             then c < |tm.metadata| && next >= pos
                  && CellLength(data, pos, tm.types[c], tm.metadata[c]) == Ok(next - pos)
             else next == pos
    requires ScanCells(data, next, tm, present, nulls, c + 1, vi').Ok?
    ensures ScanCells(data, pos, tm, present, nulls, c, vi) == ScanCells(data, next, tm, present, nulls, c + 1, vi')
    ensures var starts := Starts(data, pos, tm, present, nulls, c, vi);
            starts != [] && starts[0] == pos && starts[1..] == Starts(data, next, tm, present, nulls, c + 1, vi')
  {
    hide CellLength, Bit;
  }

  lemma {:induction false} WalkFollowsScan(lib: Library, tc: TableCache, data: bytes, lo: nat, hi: nat, p: nat,
                                           present: Bitmap, nulls: Bitmap, c: nat, vi: nat)
    requires lo <= hi <= |data| && Sized(present) && c <= present.count && vi == CountBelow(present, c)
    requires FractionsFit(tc.tableMap)
    requires WalkCells(lib, tc, data[lo..hi], p, present, nulls, c, vi).Ok?
    ensures var walk := WalkCells(lib, tc, data[lo..hi], p, present, nulls, c, vi).value;
            var scan := ScanCells(data, lo + p, tc.tableMap, present, nulls, c, vi);
            && scan == Ok(lo + walk.1)
            && ColumnsAre(lib, tc, data, present, nulls, c,
                          Starts(data, lo + p, tc.tableMap, present, nulls, c, vi), walk.0)
    decreases present.count - c
  {
    hide CellBytes, CellLength, Bit, ColumnIs, FractionsFit, ColumnsAre, CountBelow, WalkCells, ScanCells, Starts;
    if c == present.count {
      WalkEnd(lib, tc, data, lo, hi, p, present, nulls, vi);
    } else {
      var next, vi' := WalkStep(lib, tc, data[lo..hi], p, present, nulls, c, vi);
      CountNext(present, c);
      if Bit(present, c).value && !Bit(nulls, vi).value {
        CellStep(lib, tc, data, lo, hi, p, c);
      }
      WalkFollowsScan(lib, tc, data, lo, hi, next, present, nulls, c + 1, vi');
      ScanStep(data, lo + p, lo + next, tc.tableMap, present, nulls, c, vi, vi');
      var starts := Starts(data, lo + p, tc.tableMap, present, nulls, c, vi);
      var columns := WalkCells(lib, tc, data[lo..hi], p, present, nulls, c, vi).value.0;
      FirstColumn(lib, tc, data, lo, hi, p, present, nulls, c, vi);
      ColumnsCons(lib, tc, data, present, nulls, c, starts, columns);
    }
  }

  lemma WalkEnd(lib: Library, tc: TableCache, data: bytes, lo: nat, hi: nat, p: nat, present: Bitmap, nulls: Bitmap,
                vi: nat)
    requires lo <= hi <= |data| && Sized(present)
    ensures WalkCells(lib, tc, data[lo..hi], p, present, nulls, present.count, vi) == Ok(([], p))
    ensures ScanCells(data, lo + p, tc.tableMap, present, nulls, present.count, vi) == Ok(lo + p)
    ensures ColumnsAre(lib, tc, data, present, nulls, present.count,
                       Starts(data, lo + p, tc.tableMap, present, nulls, present.count, vi), [])
  {
  }

  lemma CellStep(lib: Library, tc: TableCache, data: bytes, lo: nat, hi: nat, p: nat, c: nat)
    requires lo <= hi <= |data| && FractionsFit(tc.tableMap)
    requires c < |tc.tableMap.types| && c < |tc.tableMap.metadata| && c < |tc.table.columns|
    ensures var typ, metadata := tc.tableMap.types[c], tc.tableMap.metadata[c];
            var cell := CellBytes(lib, data[lo..hi], p, typ, metadata, tc.table.columns[c].unsignedInt);
            cell.Ok? ==> CellLength(data, lo + p, typ, metadata) == Ok(cell.value.1)
  {
    hide CellBytes, CellLength, FractionTooWide;
    var typ, metadata, unsigned := tc.tableMap.types[c], tc.tableMap.metadata[c], tc.table.columns[c].unsignedInt;
    CellBytesShift(lib, data, lo, hi, p, typ, metadata, unsigned);
    LengthsAgree(lib, data, lo + p, typ, metadata, unsigned);
  }

  lemma CountNext(present: Bitmap, c: nat)
    requires Sized(present) && c < present.count
    ensures CountBelow(present, c + 1) == CountBelow(present, c) + if Bit(present, c) == Ok(true) then 1 else 0
  {
  }

  lemma FirstColumn(lib: Library, tc: TableCache, data: bytes, lo: nat, hi: nat, p: nat,
                    present: Bitmap, nulls: Bitmap, c: nat, vi: nat)
    requires lo <= hi <= |data| && Sized(present) && c < present.count && vi == CountBelow(present, c)
    requires WalkCells(lib, tc, data[lo..hi], p, present, nulls, c, vi).Ok?
    ensures ColumnIs(lib, tc, data, present, nulls, c, lo + p,
                     WalkCells(lib, tc, data[lo..hi], p, present, nulls, c, vi).value.0[0])
  {
    hide CellBytes, Bit;
    if c < |tc.tableMap.metadata| {
      CellBytesShift(lib, data, lo, hi, p, tc.tableMap.types[c], tc.tableMap.metadata[c],
                     tc.table.columns[c].unsignedInt);
    }
  }

  /** The two walkers agree: when the streamer decodes an image the scanner cut out, its cursor ends at the
      end of the slice, and every column is what stands in the event where the scan found that column. */
  lemma WalkersAgree(lib: Library, tc: TableCache, data: bytes, pos: nat, present: Bitmap)
    requires Sized(present) && FractionsFit(tc.tableMap)
    requires ReadImage(data, pos, tc.tableMap, present).Ok?
    ensures var image := ReadImage(data, pos, tc.tableMap, present).value;
            var cells := pos + ByteSize(BitCount(present));
            var walk := WalkRow(lib, tc, image.cells, present, image.nulls);
            walk.Ok? ==>
              && walk.value.1 == |image.cells|
              && ScanCells(data, cells, tc.tableMap, present, image.nulls, 0, 0).Ok?
              && ColumnsAre(lib, tc, data, present, image.nulls, 0,
                            Starts(data, cells, tc.tableMap, present, image.nulls, 0, 0), walk.value.0)
  {
    hide ScanCells, WalkCells, BitCount, ColumnsAre, Starts;
    var image := ReadImage(data, pos, tc.tableMap, present).value;
    var cells := pos + ByteSize(BitCount(present));
    var walk := WalkRow(lib, tc, image.cells, present, image.nulls);
    if walk.Ok? {
      assert CountBelow(present, 0) == 0;
      assert image.cells == data[cells..image.next];
      WalkFollowsScan(lib, tc, data, cells, image.next, 0, present, image.nulls, 0, 0);
    }
  }

  /** A successful walk over these cells ends at their end, and every column is what stands where the scan over
      them finds it. */
  predicate WalkedWhole(lib: Library, tc: TableCache, cells: bytes, present: Bitmap, nulls: Bitmap)
    requires Sized(present)
  {
    var walk := WalkRow(lib, tc, cells, present, nulls);
    walk.Ok? ==>
      && walk.value.1 == |cells|
      && ScanCells(cells, 0, tc.tableMap, present, nulls, 0, 0) == Ok(|cells|)
      && ColumnsAre(lib, tc, cells, present, nulls, 0,
                    Starts(cells, 0, tc.tableMap, present, nulls, 0, 0), walk.value.0)
  }

  /** The same for both images of every row of every decoded event. */
  lemma RowsDecodeWhole(lib: Library, tc: TableCache, data: bytes, typ: byte, postHeader: byte, i: nat)
    requires FractionsFit(tc.tableMap)
    requires var r := DecodeBody(data, typ, postHeader, tc.tableMap); r.Ok? && i < |r.value.rows|
    ensures var r := DecodeBody(data, typ, postHeader, tc.tableMap).value;
            && Sized(r.dataColumns) && Sized(r.identifyColumns)
            && WalkedWhole(lib, tc, r.rows[i].data, r.dataColumns, r.rows[i].nullColumns)
            && WalkedWhole(lib, tc, r.rows[i].identify, r.identifyColumns, r.rows[i].nullIdentifyColumns)
  {
    hide ReadHead, ReadRows, ReadRow, WalkRow, SideFits, WalkedWhole;
    var r := DecodeBody(data, typ, postHeader, tc.tableMap).value;
    var head := ReadHead(data, typ, postHeader).value;
    RowsTile(data, head.next, tc.tableMap, head.shape);
    assert RowFits(r.rows[i], tc.tableMap, head.shape);
    SideDecodesWhole(lib, tc, head.shape.hasData, r.dataColumns, r.rows[i].nullColumns, r.rows[i].data);
    SideDecodesWhole(lib, tc, head.shape.hasIdentify, r.identifyColumns, r.rows[i].nullIdentifyColumns,
                     r.rows[i].identify);
  }

  lemma SideDecodesWhole(lib: Library, tc: TableCache, has: bool, present: Bitmap, nulls: Bitmap, cells: bytes)
    requires Sized(present) && FractionsFit(tc.tableMap) && SideFits(has, tc.tableMap, present, nulls, cells)
    requires !has ==> present == NO_BITMAP
    ensures WalkedWhole(lib, tc, cells, present, nulls)
  {
    hide ScanCells, WalkCells, ColumnsAre, Starts;
    var walk := WalkRow(lib, tc, cells, present, nulls);
    if walk.Ok? {
      assert CountBelow(present, 0) == 0;
      assert cells[0..|cells|] == cells;
      WalkFollowsScan(lib, tc, cells, 0, |cells|, 0, present, nulls, 0, 0);
      if !has { EmptyScan(cells, tc.tableMap, nulls); }
    }
  }

  lemma EmptyScan(cells: bytes, tm: TableMap, nulls: Bitmap)
    ensures ScanCells(cells, 0, tm, NO_BITMAP, nulls, 0, 0) == Ok(0)
  {
  }
}
