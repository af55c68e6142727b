/** The decoded archive table (UniArchTable) and the row layout both archive
    decoders share: fixed-width rows of big-endian words, one timestamp per
    row, default "Value{i+1}" columns. */
module UniArchTables {
  import opened Wrappers
  import opened BigEndian
  import opened Decimal
  import opened UniColumns

  /** The exceptions the decoders throw. */
  datatype ParseError = ArgumentException(message: string) | NullReferenceException

  /** The contents of a table: timestamps in milliseconds, columns, rows. */
  datatype TableValue = TableValue(time: seq<int>, columns: seq<UniColumn>, rows: seq<seq<Word>>)
  {
    /** One timestamp per row, and every row exactly as wide as the column list. */
    predicate WellFormed() {
      |rows| == |time| && forall i :: 0 <= i < |rows| ==> |rows[i]| == |columns|
    }
  }

  /** The table object; the decoders append to its three lists. */
  class UniArchTable {
    var time: seq<int>
    var columns: seq<UniColumn>
    var rows: seq<seq<Word>>

    constructor ()
      ensures Value() == TableValue([], [], [])
    {
      time, columns, rows := [], [], [];
    }

    function Value(): TableValue
      reads this
    {
      TableValue(time, columns, rows)
    }
  }

  /** A byte[] argument: None stands for null. */
  function Contents(bytes: array?<byte>): (b: Option<seq<byte>>)
    reads bytes
    ensures b.None? <==> bytes == null
    ensures bytes != null ==> b.value == bytes[..]
  {
    if bytes == null then None else Some(bytes[..])
  }

  /** The outcome of a decoder call, with the table replaced by its contents. */
  function Snapshot(r: Result<UniArchTable, ParseError>): Result<TableValue, ParseError>
    reads if r.Success? then {r.value} else {}
  {
    match r
    case Success(table) => Success(table.Value())
    case Failure(e) => Failure(e)
  }

  /** Math.Min. */
  function Min(a: int, b: int): int {
    if a < b then a else b
  }

  /** How many times `for (i = 0; i < Math.Min(rowCount, maxRows); i++)` runs. */
  function RowsToRead(rowCount: nat, maxRows: int): (n: nat)
    ensures n <= rowCount
    ensures maxRows >= 0 ==> n <= maxRows
    ensures n == rowCount || n == maxRows || (maxRows <= 0 && n == 0)
    ensures maxRows <= 0 ==> n == 0
  {
    if Min(rowCount, maxRows) < 0 then 0 else Min(rowCount, maxRows)
  }

  lemma MulMonotone(a: nat, b: nat, c: nat)
    requires a <= b
    ensures a * c <= b * c
  {
  }

  /** Row i of width w after byte offset ends inside the first n rows. */
  lemma RowInBounds(offset: nat, w: nat, n: nat, i: nat)
    requires i < n
    ensures offset + 4 * (i * w) + 4 * w <= offset + 4 * (n * w)
  {
    MulMonotone(i + 1, n, w);
    assert (i + 1) * w == i * w + w;
  }

  lemma RowsInBounds(offset: nat, w: nat, n: nat)
    ensures forall i :: 0 <= i < n ==> offset + 4 * (i * w) + 4 * w <= offset + 4 * (n * w)
  {
    forall i | 0 <= i < n
      ensures offset + 4 * (i * w) + 4 * w <= offset + 4 * (n * w)
    {
      RowInBounds(offset, w, n, i);
    }
  }

  /** The first n rows of width w after byte offset: row i is the w words
      starting at byte offset + 4 * (i * w). */
  function DecodedRows(buf: seq<byte>, offset: nat, w: nat, n: nat): (rows: seq<seq<Word>>)
    requires offset + 4 * (n * w) <= |buf|
    ensures |rows| == n
    ensures forall i :: 0 <= i < n ==> |rows[i]| == w
  {
    RowsInBounds(offset, w, n);
    seq(n, i requires 0 <= i < n && offset + 4 * (i * w) + 4 * w <= |buf| => Words(buf, offset + 4 * (i * w), w))
  }

  /** The byte position of field j of row i in rows of width w after offset. */
  function FieldOffset(offset: nat, w: nat, i: nat, j: nat): nat {
    offset + (i * w + j) * 4
  }

  /** Every read of the decoder is inside the buffer, and row i, field j is the
      big-endian word at byte offset + (i * w + j) * 4. */
  lemma DecodedRowsAt(buf: seq<byte>, offset: nat, w: nat, n: nat, i: nat, j: nat)
    requires offset + 4 * (n * w) <= |buf|
    requires i < n && j < w
    ensures FieldOffset(offset, w, i, j) + 4 <= offset + 4 * (n * w)
    ensures DecodedRows(buf, offset, w, n)[i][j] == ReadWord(buf, FieldOffset(offset, w, i, j))
  {
    RowInBounds(offset, w, n, i);
    assert offset + 4 * (i * w) + 4 * j == FieldOffset(offset, w, i, j);
  }

  /** The decoded rows depend only on the bytes the rows cover: neither what
      precedes offset nor what follows the last full row matters. */
  lemma DecodedRowsFrame(b1: seq<byte>, b2: seq<byte>, offset: nat, w: nat, n: nat)
    requires offset + 4 * (n * w) <= |b1| && offset + 4 * (n * w) <= |b2|
    requires forall k :: offset <= k < offset + 4 * (n * w) ==> b1[k] == b2[k]
    ensures DecodedRows(b1, offset, w, n) == DecodedRows(b2, offset, w, n)
  {
    forall i | 0 <= i < n
      ensures DecodedRows(b1, offset, w, n)[i] == DecodedRows(b2, offset, w, n)[i]
    {
      RowFrame(b1, b2, offset, w, n, i);
    }
  }

  lemma RowFrame(b1: seq<byte>, b2: seq<byte>, offset: nat, w: nat, n: nat, i: nat)
    requires offset + 4 * (n * w) <= |b1| && offset + 4 * (n * w) <= |b2|
    requires forall k :: offset <= k < offset + 4 * (n * w) ==> b1[k] == b2[k]
    requires i < n
    ensures DecodedRows(b1, offset, w, n)[i] == DecodedRows(b2, offset, w, n)[i]
  {
    DecodedRow(b1, offset, w, n, i);
    DecodedRow(b2, offset, w, n, i);
    WordsFrame(b1, b2, offset, offset + 4 * (n * w), offset + 4 * (i * w), w);
  }

  /** Words read inside a byte range on which two buffers agree are the same. */
  lemma WordsFrame(b1: seq<byte>, b2: seq<byte>, lo: nat, hi: nat, start: nat, m: nat)
    requires lo <= start && start + 4 * m <= hi <= |b1| && hi <= |b2|
    requires forall k :: lo <= k < hi ==> b1[k] == b2[k]
    ensures Words(b1, start, m) == Words(b2, start, m)
  {
    forall q | 0 <= q < m
      ensures ReadWord(b1, start + 4 * q) == ReadWord(b2, start + 4 * q)
    {
      var p := start + 4 * q;
      assert b1[p] == b2[p] && b1[p + 1] == b2[p + 1] && b1[p + 2] == b2[p + 2] && b1[p + 3] == b2[p + 3];
    }
  }

  /** Row i is the w words at byte offset + 4 * (i * w). */
  lemma DecodedRow(buf: seq<byte>, offset: nat, w: nat, n: nat, i: nat)
    requires offset + 4 * (n * w) <= |buf|
    requires i < n
    ensures offset + 4 * (i * w) + 4 * w <= offset + 4 * (n * w)
    ensures DecodedRows(buf, offset, w, n)[i] == Words(buf, offset + 4 * (i * w), w)
  {
    RowInBounds(offset, w, n, i);
  }

  /** The rows laid end to end. */
  function Flatten(rows: seq<seq<Word>>): seq<Word> {
    if rows == [] then [] else rows[0] + Flatten(rows[1..])
  }

  lemma {:induction false} FlattenLength(rows: seq<seq<Word>>, w: nat)
    requires forall r :: 0 <= r < |rows| ==> |rows[r]| == w
    ensures |Flatten(rows)| == |rows| * w
  {
    if rows != [] {
      FlattenLength(rows[1..], w);
      assert (|rows| - 1) * w + w == |rows| * w;
    }
  }

  /** Field j of row i lands at position i * w + j of the flattened rows. */
  lemma {:induction false} FlattenAt(rows: seq<seq<Word>>, w: nat, i: nat, j: nat)
    requires forall r :: 0 <= r < |rows| ==> |rows[r]| == w
    requires i < |rows| && j < w
    ensures i * w + j < |Flatten(rows)|
    ensures Flatten(rows)[i * w + j] == rows[i][j]
  {
    FlattenLength(rows, w);
    if i > 0 {
      FlattenAt(rows[1..], w, i - 1, j);
      assert i * w + j == w + ((i - 1) * w + j);
    }
  }

  /** The byte image of a table's rows as an archive stores them. */
  function EncodeRows(rows: seq<seq<Word>>): seq<byte> {
    EncodeWords(Flatten(rows))
  }

  /** Decoding the byte image of rows of width w gives the rows back, whatever
      bytes precede or follow it. */
  lemma DecodeEncodedRows(prefix: seq<byte>, rows: seq<seq<Word>>, w: nat, suffix: seq<byte>)
    requires forall r :: 0 <= r < |rows| ==> |rows[r]| == w
    ensures |prefix + EncodeRows(rows) + suffix| == |prefix| + 4 * (|rows| * w) + |suffix|
    ensures DecodedRows(prefix + EncodeRows(rows) + suffix, |prefix|, w, |rows|) == rows
  {
    FlattenLength(rows, w);
    var buf := prefix + EncodeRows(rows) + suffix;
    var n := |rows|;
    var decoded := DecodedRows(buf, |prefix|, w, n);
    forall i | 0 <= i < n
      ensures decoded[i] == rows[i]
    {
      forall j | 0 <= j < w
        ensures decoded[i][j] == rows[i][j]
      {
        DecodedRowsAt(buf, |prefix|, w, n, i, j);
        FlattenAt(rows, w, i, j);
        ReadEncodedWordsAt(prefix, Flatten(rows), suffix, i * w + j);
      }
    }
  }

  /** n rows of width w after offset, with their timestamps and default columns. */
  function DecodedTable(buf: seq<byte>, offset: nat, w: nat, n: nat, start: int, periodMs: int): (t: TableValue)
    requires offset + 4 * (n * w) <= |buf|
    ensures t.WellFormed() && |t.columns| == w && |t.rows| == n && |t.time| == n
  {
    TableValue(Timestamps(start, periodMs, n), DefaultColumns(w), DecodedRows(buf, offset, w, n))
  }

  /** One more row of the decoded prefix. */
  lemma DecodedRowsSnoc(buf: seq<byte>, offset: nat, w: nat, i: nat, row: seq<Word>)
    requires offset + 4 * ((i + 1) * w) <= |buf|
    requires |row| == w
    requires forall k :: 0 <= k < w ==> row[k] == ReadWord(buf, offset + i * w * 4 + k * 4)
    ensures offset + 4 * (i * w) <= |buf|
    ensures DecodedRows(buf, offset, w, i + 1) == DecodedRows(buf, offset, w, i) + [row]
  {
    RowInBounds(offset, w, i + 1, i);
    assert i * w * 4 == 4 * (i * w);
    assert row == Words(buf, offset + 4 * (i * w), w);
  }

  /** One more timestamp. */
  lemma TimestampsSnoc(start: int, periodMs: int, i: nat)
    ensures Timestamps(start, periodMs, i + 1) == Timestamps(start, periodMs, i) + [start + i * periodMs]
  {
    TimestampsAt(start, periodMs, i + 1, i);
  }

  /** startTime.AddMilliseconds(i * periodMs) for i = 0 .. n - 1, in milliseconds. */
  function Timestamps(start: int, periodMs: int, n: nat): (ts: seq<int>)
    ensures |ts| == n
  {
    if n == 0 then [] else Timestamps(start, periodMs, n - 1) + [start + (n - 1) * periodMs]
  }

  lemma {:induction false} TimestampsAt(start: int, periodMs: int, n: nat, i: nat)
    requires i < n
    ensures Timestamps(start, periodMs, n)[i] == start + i * periodMs
  {
    if i < n - 1 {
      TimestampsAt(start, periodMs, n - 1, i);
    }
  }

  /** Consecutive timestamps are exactly periodMs apart. */
  lemma TimestampsEvenlySpaced(start: int, periodMs: int, n: nat, i: nat)
    requires i + 1 < n
    ensures Timestamps(start, periodMs, n)[i + 1] - Timestamps(start, periodMs, n)[i] == periodMs
  {
    TimestampsAt(start, periodMs, n, i);
    TimestampsAt(start, periodMs, n, i + 1);
    assert (i + 1) * periodMs == i * periodMs + periodMs;
  }

  /** new UniColumn(i, $"Value{i + 1}", "") */
  function DefaultColumn(i: nat): UniColumn {
    UniColumn(i, "Value" + NatToString(i + 1), "")
  }

  function DefaultColumns(n: nat): seq<UniColumn> {
    seq(n, i requires 0 <= i < n => DefaultColumn(i))
  }

  /** Default column i has index i, an empty unit, the display name equal to its
      name, and the name "Value" followed by the decimal text of i + 1; so no
      two default columns share a name. */
  lemma DefaultColumnsWellFormed(n: nat)
    ensures |DefaultColumns(n)| == n
    ensures forall i :: 0 <= i < n ==>
              var c := DefaultColumns(n)[i];
              c.index == i && c.unit == "" && c.DisplayName() == c.name &&
              |c.name| > 5 && c.name[..5] == "Value" &&
              (forall k :: 5 <= k < |c.name| ==> IsDigit(c.name[k])) &&
              ParseDecimal(c.name[5..]) == i + 1
    ensures forall i, j :: 0 <= i < j < n ==> DefaultColumns(n)[i].name != DefaultColumns(n)[j].name
  {
    var cs := DefaultColumns(n);
    forall i | 0 <= i < n
      ensures cs[i].name[5..] == NatToString(i + 1)
      ensures ParseDecimal(cs[i].name[5..]) == i + 1
    {
      assert cs[i].name[5..] == NatToString(i + 1);
      ParseNatToString(i + 1);
    }
  }
}
