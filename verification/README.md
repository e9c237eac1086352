# Binlog row events: a verified model

A client of a MySQL server reads the server's row-format binlog, cuts it into events, decodes the rows, groups
them into transactions and hands each transaction to a callback. This project models that path, from the bytes
of the connection to the transactions, and proves what it keeps.

- Pure case analyses of the program (cell lengths, metadata widths, length-encoded integers, header accessors) are
  functions. Its loops are methods, each proved equal to a recursive function over the same bytes; the theorems are
  about that function. Buffers the encoders fill are arrays. The packet connection, the variables that the event
  loop shares with its closures, and the growing event lists are classes. The dump goroutine, the channel and the
  context are a state machine over schedules.
- What the decoders read is pinned from outside: type codes, metadata, cells and event bodies are written out a
  second time, in literal numbers and as values with their texts, in `Columns`, `TemporalColumns` and
  `ServerFormats`, and every decoder is proved to give those values back.
- A Go panic is the result `Err(OutOfRange)`, a loop that never returns is `Err(Diverges)`, and the program's own
  error returns are the other errors. Input bytes are not restricted: every decoder is total.
- Printing of floats and of TIMESTAMP in local time, the table mapper and the callback are parameters of the model.
  The callback may look at everything it was given before, and may refuse.

| module | part of the program |
|---|---|
| `Bytes`, `Digits`, `LenEnc`, `Bitmaps` | integers in bytes, decimal text, length-encoded integers, bitmaps |
| `Events`, `Queries`, `TableMaps` | event headers, packets and checksums, format, rotate, query and table map events |
| `TimeCells`, `DecimalCells`, `Cells` | decoding of one cell, and its length without decoding |
| `RowEvents`, `RowFacts`, `RowEncoder`, `RowWalk` | cutting a rows event into rows, its encoder, and the streamer's second walk |
| `Packets`, `Dsn` | packet framing, data source names |
| `Columns`, `TemporalColumns` | the server's own description of every column type, its metadata and its cells, and what the decoder makes of them |
| `ServerFormats` | bodies of rows, table map and query events as servers write them, beyond the program's encoders |
| `Statements`, `Streamer`, `StreamFacts`, `StreamLoop` | grouping into transactions: statements, the machine, its run properties, the loop |
| `Resume`, `Channel` | resuming at a returned position; the two goroutines |
| `EndToEnd` | the streamer over what the encoders write |

## Results worth knowing

Where the program does less than its comments or tests suggest, the exact condition is proved.

- The encoder of rows events writes an extra-data block for every type, which the decoder does not expect of
  version 1 types: of those no value at all is read back (`RowEncoder.RowsRoundTrip`). The three exported encoders
  only use version 2.
- Table map events with a JSON column are written but never read (`TableMaps.TableMapRoundTrip`).
- The encoders write counts in one byte. They are read back up to 251 and at 255, and no others are: the protocol's
  one-byte form ends at 250, but this decoder reads 0xfb as the number 251 and 0xff as 255
  (`TableMaps.TableMapBodyRoundTrip`, `RowEncoder.BodyRoundTrip`, `LenEnc.DecodersAgree`).
- A rows event without a present column and with any body never returns (`RowFacts.RowsDivergeExactly`).
- TIMESTAMP2 and DATETIME2 metadata above six make the scanner's length differ from the decoder's
  (`Cells.LengthsAgree`). A decimal scale above the precision cannot be decoded at all
  (`DecimalCells.NegativeIntegerPartIsTooShort`).
- A DECIMAL zero without fraction digits decodes to Go's nil, which the streamer also uses for NULL
  (`Cells.DecimalZeroIsNil`); the digits of a DECIMAL may be preceded by blanks (`DecimalCells.DecimalRoundTrip`).
- An empty payload is framed but not read back (`Packets.PacketRoundTrip`).
- A format event comes back only with a 19-byte header (`Events.FormatRoundTrip`).
- A refused transaction ends at the position that is returned with the refusal: resuming there delivers all that is
  missing but that one transaction (`StreamFacts.RefusedIsPassed`, `Resume.RefusalLosesOne`).
- The loop's error is never nil, so `Stream` never stores the position it got (`StreamLoop.RowStreamer.Stream`).
- The dump goroutine can be left waiting for ever, unless the caller cancels, exactly when the events before the last
  one already stop the loop with an error: the cancel function kept with the connection is never called
  (`Channel.LeakExactly`).

## Model

| member | source | states |
|---|---|---|
| RowFacts.RowsExact | replication/binlog_event_rbr.go:382-462 | The row loop succeeds with given rows if and only if those rows are well-formed (null bitmaps of the present-column count, every cell as long as the scanner says) and, end to end, are the body from the first row on. |
| RowFacts.RowsTile | replication/binlog_event_rbr.go:382-462 | Null bitmaps and value slices of decoded rows, laid end to end, are the rest of the body: no gap, no overlap. |
| RowFacts.RowsBack | replication/binlog_event_rbr.go:382-462 | Any number of well-formed rows is read back from its bytes behind any prefix. |
| RowFacts.RowProgress | replication/binlog_event_rbr.go:397-462 | A row consumes bytes if and only if a column is present. |
| RowFacts.RowsDivergeExactly | replication/binlog_event_rbr.go:382-462 | The row loop fails to return exactly when no column is present and there is a body. |
| RowEvents.ScanColumns | replication/binlog_event_rbr.go:406-427 | The cell scan of one image, as a loop, computes the recursive scan. |
| RowEvents.ParseImage | replication/binlog_event_rbr.go:400-430 | Null bitmap and cells of one image; an absent side stays empty. |
| RowEvents.ParseRows | replication/binlog_event_rbr.go:348-465 | The whole decoder, with its head and its loop over rows, computes the specification the theorems are about. |
| RowEncoder.NewRowsEvent | replication/binlog_event_make.go:349-411 | The encoder fills its buffer with exactly the specified body, and packs it. |
| RowEncoder.BodyRoundTrip | replication/binlog_event_make.go:349-411 | For every rows value, type and table map: decoding the encoded body gives the value back if and only if the type is a version 2 type and the value is well-formed (its count one that a single byte stands for, its unused fields empty, its rows fitting). |
| RowEncoder.RowsRoundTrip | replication/binlog_event_make.go:349-411 | The same if-and-only-if through packet, checksum stripping and header, for every checksum setting the encoder supports and both event flavours; type and 48-bit table id come back. |
| ServerFormats.ServerRowsComeBack | replication/binlog_event_rbr.go:348-465 | Whatever rows event a server writes, version 1 or 2, with ids of four or six bytes, any column count and any extra data, is decoded to what it holds. |
| RowWalk.DecodeRow | row_streamer.go:388-433 | The loop over the columns of one image, with its cursor, computes the recursive walk. |
| RowWalk.WalkersAgree | row_streamer.go:388-477 | A successful walk ends at the end of the slice the scanner cut, and every column is what stands in the event where the scan found it. |
| RowWalk.RowsDecodeWhole | row_streamer.go:388-477 | For both images of every row of every decoded event: a successful walk ends at the end of the image, the scan over the image does too, and every column is what stands where the scan finds it. |
| Cells.LengthsAgree | replication/binlog_event_rbr.go:474-1004 | When the decoder succeeds, its length is the scanner's, except exactly for TIMESTAMP2 and DATETIME2 metadata above six. |
| Cells.CellLengthShift | replication/binlog_event_rbr.go:195-310 | The scanner's length depends only on the cell's own bytes, not on where it stands. |
| Cells.CellBytesShift | replication/binlog_event_rbr.go:474-1004 | A cell decodes to the same text and length in a slice and in the whole data, in both directions: every success in the slice, and every success outside whose length fits the slice. |
| Cells.DecimalZeroIsNil | replication/binlog_event_rbr.go:751-897 | The decoded data of a DECIMAL is nil exactly for a zero without sign and without fraction digits. |
| Columns.MetadataIsRead | replication/binlog_event_rbr.go:135-158 | Every column type's metadata bytes, in the byte order of its type, are read as what the type means by them, wherever they stand: precision before scale, string lengths low byte first, the real type in front of an ENUM or SET. |
| Columns.DecodesAnywhere | replication/binlog_event_rbr.go:474-1004 | A cell that decodes by itself, with its scanned length, does so behind and in front of any bytes. |
| Columns.SignedIntegerDecodes | replication/binlog_event_rbr.go:474-535 | Every integer of 1, 2, 3, 4 and 8 bytes in two's complement decodes over exactly its bytes to its canonical decimal, with '-' if negative. |
| Columns.UnsignedIntegerDecodes | replication/binlog_event_rbr.go:474-535 | The same for unsigned columns. |
| Columns.YearDecodes | replication/binlog_event_rbr.go:482-487 | YEAR gives 1901 to 2155 as they are, and 0000. |
| Columns.PrintedDecodes | replication/binlog_event_rbr.go:515-528 | FLOAT, DOUBLE and TIMESTAMP hand their little-endian bits or seconds to the library. |
| Columns.EnumDecodes | replication/binlog_event_rbr.go:899-961 | An ENUM of one or two bytes decodes to its number, under its own type code or a CHAR's. |
| Columns.SetDecodes | replication/binlog_event_rbr.go:912-969 | A SET decodes to its number under a CHAR's type code, to its bytes under its own. |
| Columns.StringDecodes | replication/binlog_event_rbr.go:578-586 | VARCHAR, VAR_STRING and CHAR: every string no longer than the column's maximum, behind a length of the least width that holds that maximum, is cut and decoded whole; for CHAR from the metadata in which its length is packed. |
| Columns.BlobDecodes | replication/binlog_event_rbr.go:916-938 | BLOBs and geometries: the same behind a length as wide as the metadata says. |
| Columns.BitDecodes | replication/binlog_event_rbr.go:587-591 | BIT(n) is the least number of bytes that hold n bits, shown as they are. |
| Columns.NullHasNoBytes | replication/binlog_event_rbr.go:197-198 | A column of type NULL has no bytes. |
| Columns.OtherTypesAreRefused | replication/binlog_event_rbr.go:195-310 | Type codes no column has, JSON among them, are refused by scanner and decoder alike. |
| Columns.OtherMetadataIsRefused | replication/binlog_event_rbr.go:474-1004 | Length widths other than one to four, and ENUM sizes other than one and two, are refused. |
| TemporalColumns.DateDecodes | replication/binlog_event_rbr.go:536-543 | A packed DATE decodes to the digits of its year, month and day, each at its place. |
| TemporalColumns.OldTimeDecodes | replication/binlog_event_rbr.go:545-564 | An old TIME decodes to the digits of its clock; a negative one shows its sign exactly if the hour is not zero. |
| TemporalColumns.OldDateTimeDecodes | replication/binlog_event_rbr.go:566-576 | An old DATETIME decodes to the digits of its date and clock. |
| TemporalColumns.Timestamp2Decodes | replication/binlog_event_rbr.go:592-627 | TIMESTAMP(m): big-endian seconds to the library, and m fraction digits. |
| TemporalColumns.DateTime2Decodes | replication/binlog_event_rbr.go:629-682 | DATETIME(m): digits of date, clock and m fraction digits, each at its place. |
| TemporalColumns.Time2Decodes | replication/binlog_event_rbr.go:684-749 | TIME(m): sign, clock with hours up to 1023, and m fraction digits, from the biased number. |
| TemporalColumns.DecimalDecodes | replication/binlog_event_rbr.go:751-897 | DECIMAL(p, s) as a column: scanned and decoded over exactly its cell to the text of DecimalCells.DecimalRoundTrip. |
| DecimalCells.LeftoverWidths | replication/binlog_event_rbr.go:191 | The table of leftover widths: for x of 1 to 8 digits the least number of bytes with room for x digits and a sign bit, none for none. |
| DecimalCells.DecodeDecimal | replication/binlog_event_rbr.go:751-897 | The in-place decoding of the copied cell computes the specified text and length. |
| DecimalCells.RestoreMagnitude | replication/binlog_event_rbr.go:764-777 | Flipping the sign bit and complementing a negative cell in place yields the unsigned magnitude and the sign. |
| DecimalCells.PrintInteger | replication/binlog_event_rbr.go:779-822 | The loop over the integer groups prints the specified text and knows whether a digit was written. |
| DecimalCells.PrintFraction | replication/binlog_event_rbr.go:836-895 | The loop over the fraction groups prints the specified text. |
| DecimalCells.DecimalRoundTrip | replication/binlog_event_rbr.go:751-897 | For every precision, scale, sign and value, stored in nine-digit groups and leftovers of the least width with room for their digits and a sign bit: the text without blanks is sign, canonical integer digits and exactly `scale` fraction digits, over exactly the cell; and blanks occur exactly in the stated case. |
| DecimalCells.MagnitudeDenotes | replication/binlog_event_rbr.go:779-897 | The same for magnitudes. |
| DecimalCells.ComplementAddsSign | replication/binlog_event_rbr.go:764-777 | Complementing every byte of a non-negative cell adds only the leading minus sign. |
| DecimalCells.NegativeIntegerPartIsTooShort | replication/binlog_event_rbr.go:240-265 | With a scale above the precision the computed length is less than the fraction alone needs. |
| TimeCells.DateTimeRoundTrip | replication/binlog_event_rbr.go:629-645 | The mixed-radix packing fits below the bias bit and the decoder returns exactly the packed fields. |
| TimeCells.DateTimeUnpackPack | replication/binlog_event_rbr.go:629-645 | Every stored value with the bias bit is the packing of what the decoder returns. |
| TimeCells.DateTime2RoundTrip | replication/binlog_event_rbr.go:629-682 | A stored DATETIME2(m) cell decodes to its fields and fraction whatever follows it. |
| TimeCells.BorrowIsDivMod | replication/binlog_event_rbr.go:684-744 | For every stored value the sign, and the parts after the borrow, are the sign and the quotient and remainder by 256^k of the absolute biased value. |
| TimeCells.ClockRecomposes | replication/binlog_event_rbr.go:746-749 | Hour, minute and second recompose the clock value exactly when the hour is below 1024. |
| TimeCells.TimeTextFields | replication/binlog_event_rbr.go:746-749 | The text shows exactly the fields the clock value is put together from. |
| TimeCells.Time2RoundTrip | replication/binlog_event_rbr.go:684-749 | A stored TIME(m) value decodes to its sign, clock and fraction over exactly its cell. |
| TableMaps.ParseTableMap | replication/binlog_event_rbr.go:33-97 | The decoder computes the specified table map. |
| TableMaps.ParseMetadata | replication/binlog_event_rbr.go:79-91 | The metadata loop reads the specified values and must end where the length says. |
| TableMaps.NewTableMapEvent | replication/binlog_event_make.go:269-328 | The encoder fills its buffer with exactly the specified body, and packs it. |
| TableMaps.MetadataWrite | replication/binlog_event_rbr.go:161-189 | One value is written in the width and byte order of its type. |
| TableMaps.MetadataTotal | replication/binlog_event_rbr.go:126-132 | The sum of the widths, or the panic of an unknown type. |
| TableMaps.MetadataWrittenTotal | replication/binlog_event_make.go:313-318 | The metadata bytes written are exactly as many as the total length announces. |
| TableMaps.TableMapBodyRoundTrip | replication/binlog_event_make.go:269-328 | For every table map the encoder accepts: decoding the encoded body gives it back if and only if it is encodable (names, flags and metadata fit their widths, both counts are ones that a single byte stands for, the null bitmap has its size) and has no JSON column. |
| TableMaps.TableMapRoundTrip | replication/binlog_event_make.go:269-328 | The encoder returns exactly when it knows all types and has metadata for them, and then the same if-and-only-if holds through packet, checksum stripping and header, with the 48-bit table id. |
| ServerFormats.ServerTableComesBack | replication/binlog_event_rbr.go:33-97 | Whatever table map a server writes, with ids of either width, any column count and any bytes behind it, is decoded to what it holds. |
| Queries.ScanVars | replication/binlog_event_common.go:245-285 | The status-variable loop computes the recursive walk. |
| Queries.WalkStaysInside | replication/binlog_event_common.go:245-285 | For every block, no read of the walk is out of range: it terminates, and its only failure is its own overflow error. |
| Queries.QueryPanicsExactly | replication/binlog_event_common.go:220-287 | Of all reads of the decoder, one is out of range exactly if the body is too short for the fixed fields. |
| Queries.WalkUnderstands | replication/binlog_event_common.go:245-285 | The walk passes over any well-formed sequence of the entries it knows and remembers the last charset. |
| Queries.CharsetFound | replication/binlog_event_common.go:245-285 | Q_CHARSET is found behind any such sequence, whatever unknown code follows. |
| ServerFormats.ServerCharsetIsFound | replication/binlog_event_common.go:245-285 | In a block as servers write it, with literal codes, the three charset ids are found, whatever unknown variable follows. |
| Queries.NewQueryEvent | replication/binlog_event_make.go:155-194 | The encoder fills its buffer with exactly the specified body, and packs it. |
| Queries.QueryBodyRoundTrip | replication/binlog_event_make.go:155-194 | The decoder inverts the encoder's body exactly for names of at most 255 bytes and 16-bit charsets. |
| Queries.QueryRoundTrip | replication/binlog_event_make.go:155-194 | The same through packet, checksum stripping and header. |
| Events.PacketizeBuffer | replication/binlog_event_make.go:79-97 | Header fields and body written into one buffer give the specified packet. |
| Events.PacketizeIsValid | replication/binlog_event_common.go:34-53 | A packet the encoder makes is valid exactly when its size fits 32 bits. |
| Events.PacketizeStrip | replication/binlog_event_mysql56.go:52-69 | Type and body come back after the checksum is stripped exactly for the checksum settings the encoder writes room for. |
| Events.TableIDBack | replication/binlog_event_common.go:320-335 | The six-byte table id is read back modulo 2^48. |
| ServerFormats.TableIdIsRead | replication/binlog_event_common.go:320-335 | A table id is read over four bytes if the post header has six, else over six. |
| Events.NewFormatDescriptionEvent | replication/binlog_event_make.go:107-124 | The encoder writes the specified body. |
| Events.FormatRoundTrip | replication/binlog_event_common.go:167-190 | The format comes back exactly when it is version 4 with a 19-byte header and a version text that fits and does not end in a zero byte. |
| Events.NewRotateEvent | replication/binlog_event_make.go:139-152 | The encoder writes position, file name and a zero timestamp. |
| Events.RotateRoundTrip | replication/binlog_event_common.go:198-206 | File name and position, as a signed 64-bit number, come back through packet and checksum stripping. |
| Bitmaps.CountBits | replication/binlog_event.go:338-346 | The loop counts the set bits below the count. |
| Bitmaps.Set | replication/binlog_event.go:325-333 | The in-place update of one byte is the specified bitmap. |
| Bitmaps.BitIsBinaryDigit | replication/binlog_event.go:318-322 | Bit i is the binary digit of weight 2^(i mod 8) in byte i / 8. |
| Bitmaps.SetThenBit | replication/binlog_event.go:318-333 | Set changes the bit it names and no other. |
| Bitmaps.SetThenCount | replication/binlog_event.go:325-346 | Set moves the bit count by exactly that bit. |
| LenEnc.LenEncRoundTrip | dump/utils.go:538-583 | Every uint64 appended is read back with its size by both decoders, at any offset and before any bytes. |
| LenEnc.DecodersAgree | replication/binlog_event_rbr.go:1006-1041 | On every input the decoders succeed or fail alike and agree, except for first byte 0xfb (251 or NULL) and for exhausted input (a failure or NULL). |
| Digits.Uint64ToString | dump/utils.go:468-488 | For every uint64 the 20-byte array suffices and the text is the decimal one. |
| Digits.DecimalIsCanonical | dump/utils.go:468-488 | That text has only digits, no leading zero, and denotes the number. |
| Digits.CanonicalIsDecimal | dump/utils.go:468-488 | It is the only such text. |
| Digits.StringToInt | dump/utils.go:491-498 | The accumulating loop with 64-bit wrap-around computes the specified value. |
| Digits.StringToIntWraps | dump/utils.go:491-498 | On digits it is the number they denote, wrapped to a signed 64-bit int. |
| Digits.PrintedNumberReadsBack | dump/utils.go:468-498 | The two conversions invert each other exactly on the numbers below 2^63. |
| Packets.MysqlConn.WritePacket | dump/packets.go:105-153 | What goes out is the framing of the original payload as far as the connection takes it, although headers overwrite the buffer; the sequence number, and the buffer afterwards. |
| Packets.MysqlConn.SendFrames | dump/packets.go:112-152 | The loop over frames; each header lands on bytes already sent. |
| Packets.MysqlConn.ReadPacket | dump/packets.go:32-102 | The reading loop, with its accumulated data and its sequence checks, computes the recursive reader. |
| Packets.FramesReadBack | dump/packets.go:32-153 | A payload of any size is read back behind any earlier full frames, with equal sequence numbers on both sides. |
| Packets.PacketRoundTrip | dump/packets.go:32-153 | Framing and reading give the payload back exactly when it is not empty: multiples of the frame size and wrapped sequence numbers included. |
| Packets.PacketsAreNotEmpty | dump/packets.go:32-102 | Whatever the peer sends, a packet returned is not empty. |
| Packets.SequenceCountsFrames | dump/packets.go:105-153 | Frames are counted modulo 256, the empty last frame included. |
| Packets.FrameSizeLimit | dump/packets.go:105-153 | A full frame has the largest size that three length bytes can say. |
| Dsn.ParseDSN | dump/dsn.go:260-357 | The backward and forward scans compute the specified parts. |
| Dsn.ParseLeft | dump/dsn.go:276-311 | Credentials, network and address in front of the last slash. |
| Dsn.FormatDSN | dump/dsn.go:53-78 | The buffer built is the specified text. |
| Dsn.DsnRoundTrip | dump/dsn.go:53-357 | For a network and an address that are not empty, parsing the format gives the config back exactly when it is clean (separators only where they cannot be mistaken) and its parameters parse. |
| Dsn.DefaultsComeBack | dump/dsn.go:337-355 | For every clean config, what is left out comes back as the default of its network; an address without a network is lost, and an unknown network without an address is refused. |
| Dsn.OpenEndpointIsRefused | dump/dsn.go:298-306 | An address that is opened and not closed in front of the slash is refused, with the error the code distinguishes. |
| Streamer.AppendEventFromRows | row_streamer.go:345-386 | The three append loops compute the stream event of all rows, or the error. |
| Streamer.EventHoldsRows | row_streamer.go:345-386 | That event has the images of exactly these rows, one per row and in row order: where-images for updates and deletes, value-images for inserts and updates. There is none exactly if a row cannot be decoded, and then the first such row gives the error, its where-image first. |
| Statements.CategoryByText | mysql_types.go:80-88 | A statement is BEGIN, COMMIT or ROLLBACK if and only if it begins with that word in any case, followed by a blank or nothing. |
| StreamLoop.EventParser.Begin | row_streamer.go:98-105 | The begin closure opens a fresh list and drops the old one without touching what was delivered. |
| StreamLoop.EventParser.CommitTransaction | row_streamer.go:107-118 | The commit closure does exactly the machine's commit and delivers the open list itself; the position has moved even if the callback refuses. |
| StreamLoop.EventParser.Handle | row_streamer.go:134-341 | One turn of the loop is exactly one step of the machine and changes no delivered list. |
| StreamLoop.RowStreamer.ParseEvents | row_streamer.go:90-343 | The loop computes the run of the machine over the events received, returns its position with an error that is never nil, and leaves every delivered list as it was when it was delivered. |
| StreamLoop.RowStreamer.Stream | row_streamer.go:66-88 | The position it starts from next time is the one it started from. |
| StreamFacts.RunKeepsFlag | row_streamer.go:98-118 | At every loop head, autocommit holds exactly when no transaction is open. |
| StreamFacts.Conservation | row_streamer.go:90-343 | For every run: the transactions delivered are the groups the stream calls for; their events in order are the decoded rows events without those that a ROLLBACK, or a BEGIN in an open transaction, discards and without those still pending; the pending ones are exactly the rest. |
| StreamFacts.GroupsConserve | row_streamer.go:98-118 | The groups a stream calls for contain each rows event whose fate is to be sent once and in order, and no other. |
| StreamFacts.RunMatches | row_streamer.go:90-343 | The machine refines the grouping step by step from any matching state. |
| StreamFacts.PositionChain | row_streamer.go:107-131 | Every delivery begins where the last one ended or the last rotate since then pointed, keeps the file, and ends at the next position in its event's header. Every run, stopped by whatever error, ends at the end of that chain, with exactly two exceptions: a mapped table with the wrong columns gives the zero position, and a refusal the end of the refused transaction, which begins at the end of the chain. |
| StreamFacts.RefusedIsPassed | row_streamer.go:107-118 | A refusing callback stops the run at the first transaction refused, all before it are sent, and the position returned is that transaction's end; without a refusal the callback makes no difference. |
| StreamFacts.HaltedAfterRunning | row_streamer.go:120-343 | A run that stops with an error has delivered exactly what it had delivered before the event that stops it. |
| Resume.ResumeEquivalence | row_streamer.go:90-343 | Stop a run after any number of events, start a fresh one at the returned position with a new fake rotate and format event: what both send, one after the other, is what one uninterrupted run sends, and it ends alike. |
| Resume.RefusalLosesOne | row_streamer.go:107-118 | Stopped by a refusal, resumed at the returned position and refused nothing more: what the uninterrupted run sends is what was sent before, then the refused transaction, then what the resumed run sends. |
| Resume.ResumePointExists | row_streamer.go:107-131 | The position returned is always the start of an event already reached, or of the log. |
| Resume.RefusalPointExists | row_streamer.go:107-118 | The position a refusal returns is the start of an event of the log, or its end. |
| Resume.RunAlike | row_streamer.go:186-232 | Two readers that differ only in cached tables not mapped since the last move of the position do the same for ever. |
| Channel.EverySchedule | slave_conn.go:81-112 | In every interleaving with cancellation and failed reads: the i-th event consumed is the i-th packet without its first byte, and none of these packets begins with 0xfe or 0xff; the loop stands where the sequential run over them stands; what it sent is a prefix of what the whole stream calls for. |
| Channel.EventsBeforeIs | slave_conn.go:85-112 | The whole stream is all packets up to the first that begins with 0xfe or 0xff. |
| Channel.QuietEndIsComplete | slave_conn.go:81-112 | Without cancellation and failed reads the loop returns with everything the sequential run sends, its position and its error. |
| Channel.StuckExactly | slave_conn.go:81-112 | No schedule blocks while the loop runs; afterwards the system is blocked exactly when both sides are done or the goroutine offers an event nobody takes. |
| Channel.LeakReachable | slave_conn.go:66-112 | For every stream whose events before the last one stop the loop with an error there is a schedule that leaves the goroutine blocked. |
| Channel.LeakExactly | slave_conn.go:66-112 | Some schedule leaves the goroutine blocked if and only if the run over all events but the last stops with an error. |
| Channel.SchedulesEnd | slave_conn.go:81-112 | No schedule is longer than four steps a packet and two; one that cannot go on without a cancellation has the loop returned. |
| Channel.CanFinish | slave_conn.go:81-112 | From every state some schedule without a cancellation leads to one where nothing more happens. |
| EndToEnd.TransactionComesThrough | row_streamer.go:90-343 | A fresh reader given a format event, a BEGIN statement, a table map, any number of changes and an ending, as the encoders write them, delivers exactly one transaction, from the start position to the one in the last header. After an XID event or a statement that says COMMIT it has one stream event per change, in order, decoded from the very rows that were encoded; after one that says ROLLBACK it has none. Or exactly this one is refused. |
| EndToEnd.StatementMeaning | row_streamer.go:185-208 | An encoded query event opens, commits or rolls back a transaction if and only if its text says so, and is passed over if and only if it says none of the three. |
| EndToEnd.OtherStatementsPass | row_streamer.go:185-208 | Every other statement leaves the state as it is and delivers nothing. |
| EndToEnd.RotateMoves | row_streamer.go:176-184 | An encoded rotate event leaves the reader at exactly the file and the offset it names, and changes nothing else. |
| EndToEnd.RowsAreStatements | row_streamer.go:245-325 | Rows events of both versions become the statement of their type, and the images that statement asks for are those such an event has. |
| EndToEnd.TableIsKept | row_streamer.go:219-223 | A table id mapped again keeps its first table without asking the mapper. |
| EndToEnd.UnsupportedStops | row_streamer.go:331-339 | RAND, INTVAR and ROWS_QUERY events stop the loop at its position. |
| EndToEnd.OtherEventsPass | row_streamer.go:169-341 | Events of all other types leave the state as it is and deliver nothing. |
| EndToEnd.InvalidStops | row_streamer.go:134-137 | A packet too short for a header, or whose header is wrong about its size, stops the loop at its position in every state. |
| EndToEnd.FormatComesFirst | row_streamer.go:151-162 | Before the format is known rotate events pass, and every other event but a format event stops the loop. |
| EndToEnd.UnmappedStops | row_streamer.go:245-325 | A rows event for a table id that was not mapped stops the loop at its position. |
| EndToEnd.BadMappingStops | row_streamer.go:225-241 | A new table the mapper does not know stops the loop at its position; one with another number of columns than its table map stops it with the zero position. |
| EndToEnd.ShippedFormatsWork | replication/binlog_event_make.go:11-48 | Both formats the program ships meet what these results ask of a format. |

## Left out

- Sockets, TLS, timeouts, handshake, authentication and result sets: the connection is bytes to read, room to write, and a sequence number.
- Float, double and TIMESTAMP printing: library and local-time behaviour, a parameter of `Cells`; only the lengths are modelled.
- Logging, collation names, `String()` methods and JSON marshalling of results: no decision depends on them.
- GTID events: the code that would use them is commented out; they leave the loop's state as it is.
- CRC verification: the program discards checksums unread.
- The data source name's parameters, time zones and TLS names: one opaque text with a predicate that says whether it parses.
- The table mapper: an uninterpreted pure function from a table's name to its columns.
- Slices are bounded by their length: Go would let a read slip into the four stripped checksum bytes, which lie within the slice's capacity, where the model has `OutOfRange`.
- Nil and empty slices are told apart only for the pending events, for the data of a column and for the events of a delivery.
- The integers of the program that hold lengths and positions in memory are unbounded in the model; wrap-around is modelled where file data or `stringToInt` reach it.
- Partial values that Go returns together with an error are not modelled; no caller uses them.
- RowWalk.DecodeRow: stands for both walkers of the streamer, which differ only in the image they walk over.
- RowWalk.WalkersAgree: needs fraction metadata of at most six, the exact condition of `Cells.LengthsAgree`; for other metadata the two lengths do differ.
- RowWalk.RowsDecodeWhole: needs the same.
- Streamer.AppendEventFromRows: one loop with the kind of statement as argument stands for the three append functions.
- Statements.StatementCategory: lower-cases ASCII letters only; the program lower-cases all of Unicode, which differs only for words with foreign letters such as the Kelvin sign.
- StreamLoop.RowStreamer.ParseEvents: the events received and the reason the stream ended are arguments; how they come to be is in `Channel`.
- Resume.ResumeEquivalence: assumes a callback that takes everything (a refusal is `Resume.RefusalLosesOne`), stable table ids, a table map before its rows since the position last moved, rotate events outside transactions, and a log whose events name each other's positions. Where several events start at one position, all but the last must leave a reader there as it is, like a repeated rotate event or a heartbeat (`Resume.Unambiguous`). The format announced on resuming is the one in force at that event, or any if the event announces its own (`Resume.Announces`).
- EndToEnd.TransactionComesThrough: one table, and one set of header fields for all its events; packets below 4 GB, and rows that the table's columns can decode.
- TemporalColumns.DateDecodes: years above 9999, which no server stores, are not described.
- Channel.EverySchedule: handling one event is one step, since the loop shares nothing but the channel and the context with the goroutine.
