/** UniArchTableParser: the fixed-layout decoder for minute archives. The
    first four bytes are skipped whatever they hold, and every row has 47
    big-endian words (188 bytes). */
module UniArchTableParser {
  import opened Wrappers
  import opened BigEndian
  import opened Decimal
  import opened UniColumns
  import opened UniArchTables

  const FloatsPerRow: nat := 47
  const RowBytes: nat := FloatsPerRow * 4

  /** The bytes skipped before the first row. */
  const HeaderBytes: nat := 4

  const TooSmallMessage := "arch file too small"

  /** The defaults of ParseMinuteTable's optional arguments: one row per
      minute, at most 300 rows. */
  const DefaultPeriodMs: int := 60000
  const DefaultMaxRows: int := 300

  /** The number of rows ParseMinuteTable reads: the whole rows after the
      header, at most maxRows of them. */
  function MinuteRows(len: nat, maxRows: int): (n: nat)
    requires len >= HeaderBytes + RowBytes
    ensures HeaderBytes + n * RowBytes <= len
    ensures 4 * (n * FloatsPerRow) == n * RowBytes
    ensures maxRows <= 0 ==> n == 0
    ensures maxRows > 0 ==> n == Min((len - HeaderBytes) / RowBytes, maxRows)
    ensures maxRows >= 1 ==> n >= 1
  {
    var n := RowsToRead((len - HeaderBytes) / RowBytes, maxRows);
    MulMonotone(n, (len - HeaderBytes) / RowBytes, RowBytes);
    n
  }

  /** What ParseMinuteTable returns for the buffer (None for null, which the
      length test dereferences). */
  function MinuteTableSpec(archBytes: Option<seq<byte>>, start: int, periodMs: int, maxRows: int)
    : (r: Result<TableValue, ParseError>)
    ensures archBytes.None? ==> r == Failure(NullReferenceException)
    ensures archBytes.Some? && |archBytes.value| < HeaderBytes + RowBytes ==>
              r == Failure(ArgumentException(TooSmallMessage))
    ensures r.Success? <==> archBytes.Some? && |archBytes.value| >= HeaderBytes + RowBytes
    ensures r.Success? ==>
              r.value.WellFormed() &&
              r.value.columns == DefaultColumns(FloatsPerRow) &&
              |r.value.rows| == MinuteRows(|archBytes.value|, maxRows)
  {
    match archBytes
    case None => Failure(NullReferenceException)
    case Some(buf) =>
      if |buf| < HeaderBytes + RowBytes then Failure(ArgumentException(TooSmallMessage))
      else
        var n := MinuteRows(|buf|, maxRows);
        Success(DecodedTable(buf, HeaderBytes, FloatsPerRow, n, start, periodMs))
  }

  /** The byte position of field c of row r: 4 + r * 188 + c * 4. */
  function MinuteFieldOffset(r: nat, c: nat): nat {
    HeaderBytes + r * RowBytes + c * 4
  }

  /** The decoded table field by field: row r starts r periods after the
      start, and row r, field c is the word at byte 4 + r * 188 + c * 4, which
      lies inside the buffer. */
  lemma MinuteTableContents(buf: seq<byte>, start: int, periodMs: int, maxRows: int, t: TableValue, r: nat, c: nat)
    requires MinuteTableSpec(Some(buf), start, periodMs, maxRows) == Success(t)
    requires r < |t.rows| && c < FloatsPerRow
    ensures r < |t.time| && t.time[r] == start + r * periodMs
    ensures c < |t.rows[r]| && MinuteFieldOffset(r, c) + 4 <= |buf| &&
            t.rows[r][c] == ReadWord(buf, MinuteFieldOffset(r, c))
  {
    var n := MinuteRows(|buf|, maxRows);
    TimestampsAt(start, periodMs, n, r);
    DecodedRowsAt(buf, HeaderBytes, FloatsPerRow, n, r, c);
    assert FieldOffset(HeaderBytes, FloatsPerRow, r, c) == MinuteFieldOffset(r, c);
  }

  /** The four header bytes are never read: buffers that differ only there
      decode to the same table. */
  lemma HeaderIgnored(b1: seq<byte>, b2: seq<byte>, start: int, periodMs: int, maxRows: int)
    requires |b1| == |b2| >= HeaderBytes
    requires forall k :: HeaderBytes <= k < |b1| ==> b1[k] == b2[k]
    ensures MinuteTableSpec(Some(b1), start, periodMs, maxRows) == MinuteTableSpec(Some(b2), start, periodMs, maxRows)
  {
    if |b1| >= HeaderBytes + RowBytes {
      var n := MinuteRows(|b1|, maxRows);
      DecodedRowsFrame(b1, b2, HeaderBytes, FloatsPerRow, n);
    }
  }

  /** Rows of 47 words written after any four header bytes decode back to
      themselves, whatever partial row follows them, as long as maxRows does
      not cut them short. */
  lemma MinuteTableRoundTrip(header: seq<byte>, rows: seq<seq<Word>>, tail: seq<byte>,
                             start: int, periodMs: int, maxRows: int)
    requires |header| == HeaderBytes && |tail| < RowBytes
    requires 1 <= |rows| <= maxRows
    requires forall r :: 0 <= r < |rows| ==> |rows[r]| == FloatsPerRow
    ensures MinuteTableSpec(Some(header + EncodeRows(rows) + tail), start, periodMs, maxRows).Success?
    ensures MinuteTableSpec(Some(header + EncodeRows(rows) + tail), start, periodMs, maxRows).value.rows == rows
  {
    var buf := header + EncodeRows(rows) + tail;
    DecodeEncodedRows(header, rows, FloatsPerRow, tail);
    var k := |rows|;
    assert |buf| - HeaderBytes == k * RowBytes + |tail|;
    WholeRows(k, |tail|);
  }

  /** k whole rows followed by a partial one count as k rows. */
  lemma WholeRows(k: nat, rest: nat)
    requires rest < RowBytes
    ensures (k * RowBytes + rest) / RowBytes == k
  {
  }

  /** With the default arguments a successful ParseMinuteTable reads between
      1 and 300 rows, one minute apart. */
  lemma DefaultRowCount(buf: seq<byte>, start: int, t: TableValue)
    requires MinuteTableSpec(Some(buf), start, DefaultPeriodMs, DefaultMaxRows) == Success(t)
    ensures 1 <= |t.rows| <= DefaultMaxRows
    ensures forall r :: 0 <= r < |t.time| ==> t.time[r] == start + r * DefaultPeriodMs
  {
    forall r | 0 <= r < |t.time|
      ensures t.time[r] == start + r * DefaultPeriodMs
    {
      TimestampsAt(start, DefaultPeriodMs, |t.rows|, r);
    }
  }

  /** ParseMinuteTable: reject a null or short buffer, add the 47 default
      columns, then fill each row array word by word and append it with its
      timestamp. */
  method ParseMinuteTable(archBytes: array?<byte>, startLocal: int,
                          periodMs: int := DefaultPeriodMs, maxRows: int := DefaultMaxRows)
    returns (result: Result<UniArchTable, ParseError>)
    ensures result.Success? ==> fresh(result.value)
    ensures Snapshot(result) == MinuteTableSpec(Contents(archBytes), startLocal, periodMs, maxRows)
  {
    if archBytes == null {
      return Failure(NullReferenceException);
    }
    if archBytes.Length < HeaderBytes + RowBytes {
      return Failure(ArgumentException(TooSmallMessage));
    }
    ghost var buf := archBytes[..];

    var table := new UniArchTable();
    for i := 0 to FloatsPerRow
      invariant table.Value() == TableValue([], DefaultColumns(i), [])
    {
      table.columns := table.columns + [UniColumn(i, "Value" + NatToString(i + 1), "")];
    }

    var payload := archBytes.Length - HeaderBytes;
    var totalRows := payload / RowBytes;
    var rows := Min(totalRows, maxRows);
    ghost var n := MinuteRows(archBytes.Length, maxRows);

    var r := 0;
    while r < rows
      invariant 0 <= r <= n
      invariant table.Value() == DecodedTable(buf, HeaderBytes, FloatsPerRow, r, startLocal, periodMs)
    {
      var row := new Word[FloatsPerRow];
      var baseOffset := HeaderBytes + r * RowBytes;
      assert baseOffset + RowBytes <= |buf| by {
        MulMonotone(r + 1, n, RowBytes);
      }
      for c := 0 to FloatsPerRow
        modifies row
        invariant forall k :: 0 <= k < c ==> row[k] == ReadWord(buf, baseOffset + k * 4)
      {
        row[c] := ReadWordAt(archBytes, baseOffset + c * 4);
      }
      MinuteRowSnoc(buf, r, row[..]);
      TimestampsSnoc(startLocal, periodMs, r);
      table.rows := table.rows + [row[..]];
      table.time := table.time + [startLocal + r * periodMs];
      r := r + 1;
    }
    return Success(table);
  }

  /** One more row of the minute layout. */
  lemma MinuteRowSnoc(buf: seq<byte>, r: nat, row: seq<Word>)
    requires HeaderBytes + (r + 1) * RowBytes <= |buf|
    requires |row| == FloatsPerRow
    requires forall k :: 0 <= k < FloatsPerRow ==> row[k] == ReadWord(buf, HeaderBytes + r * RowBytes + k * 4)
    ensures HeaderBytes + 4 * (r * FloatsPerRow) <= |buf|
    ensures DecodedRows(buf, HeaderBytes, FloatsPerRow, r + 1) == DecodedRows(buf, HeaderBytes, FloatsPerRow, r) + [row]
  {
    assert r * RowBytes == r * FloatsPerRow * 4;
    DecodedRowsSnoc(buf, HeaderBytes, FloatsPerRow, r, row);
  }
}
