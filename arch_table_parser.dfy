/** ArchTableParser: decodes an archive whose row width is not known, after an
    optional 00 00 00 AD prefix, by scoring the candidate widths that divide
    the payload on the plausibility of the first row. */
module ArchTableParser {
  import opened Wrappers
  import opened BigEndian
  import opened Float32
  import opened UniColumns
  import opened UniArchTables

  const Marker: Word := 0xAD
  const MinLength: nat := 8
  const TooSmallMessage := "archBytes is empty or too small."

  /** The defaults of Parse's optional arguments: one row per minute, at most
      500 rows. */
  const DefaultPeriodMs: int := 60000
  const DefaultMaxRows: int := 500

  /** The row widths tried, in order of preference. */
  const Candidates: seq<nat> := [47, 46, 48, 40, 32, 24, 16, 12, 10, 8, 6, 4]

  /** The most words Score inspects per candidate. */
  const ScoredFields: nat := 16

  /** The score of a candidate whose first row holds a NaN or an infinity. */
  const NonFiniteScore: int := -1000

  /** 4 when the buffer starts with the marker 00 00 00 AD, else 0. */
  function PrefixOffset(buf: seq<byte>): (offset: nat)
    ensures offset == 0 || offset == 4
    ensures offset == 4 <==> |buf| >= 4 && ReadWord(buf, 0) == Marker
  {
    if |buf| >= 4 && buf[0] == 0x00 && buf[1] == 0x00 && buf[2] == 0x00 && buf[3] == 0xAD then 4 else 0
  }

  /** The candidate filter `c > 0 && totalFloats % c == 0`. */
  predicate Divides(c: nat, total: nat) {
    c > 0 && total % c == 0
  }

  /** A divisor of a positive number is no larger than it. */
  lemma DivisorAtMost(c: nat, total: nat)
    requires total >= 1 && Divides(c, total)
    ensures c <= total
  {
  }

  /** Positions from `from` on of the entries of cands that divide total, in
      list order. */
  function DivisiblePositions(cands: seq<nat>, total: nat, from: nat): (ps: seq<nat>)
    requires from <= |cands|
    ensures forall i :: 0 <= i < |ps| ==> from <= ps[i] < |cands| && Divides(cands[ps[i]], total)
    ensures forall i, j :: 0 <= i < j < |ps| ==> ps[i] < ps[j]
    ensures forall p :: from <= p < |cands| && Divides(cands[p], total) ==> p in ps
    ensures (forall p :: from <= p < |cands| ==> !Divides(cands[p], total)) ==> ps == []
    decreases |cands| - from
  {
    if from == |cands| then []
    else if Divides(cands[from], total) then [from] + DivisiblePositions(cands, total, from + 1)
    else DivisiblePositions(cands, total, from + 1)
  }

  /** cands.Where(c => c > 0 && totalFloats % c == 0), in list order. */
  function DivisibleCandidates(cands: seq<nat>, total: nat): (cs: seq<nat>)
    ensures forall c :: c in cs <==> c in cands && Divides(c, total)
    ensures forall i :: 0 <= i < |cs| ==> Divides(cs[i], total)
    ensures (forall c :: c in cands ==> !Divides(c, total)) ==> cs == []
  {
    var ps := DivisiblePositions(cands, total, 0);
    var cs := seq(|ps|, i requires 0 <= i < |ps| => cands[ps[i]]);
    assert forall c :: c in cands && Divides(c, total) ==> c in cs by {
      forall c | c in cands && Divides(c, total)
        ensures c in cs
      {
        var p :| 0 <= p < |cands| && cands[p] == c;
        var i :| 0 <= i < |ps| && ps[i] == p;
        assert cs[i] == c;
      }
    }
    cs
  }

  /** The points Score gives word v at position i of the first row when no
      inspected word is NaN or infinite: +4 for a frequency in [45, 65] at 0,
      +2 for a voltage in [100, 550] at 1..6, +1 for a current in [0, 500] at
      7..12, and -3 whenever the magnitude exceeds 1e6. */
  function WordPoints(i: nat, v: Word): (pts: int)
    ensures -3 <= pts <= 4
  {
    (if i == 0 && InClosedRange(v, F45, F65) then 4 else 0)
    + (if 1 <= i <= 6 && InClosedRange(v, F100, F550) then 2 else 0)
    + (if 7 <= i <= 12 && InClosedRange(v, Zero, F500) then 1 else 0)
    - (if AbsGreaterThan(v, F1e6) then 3 else 0)
  }

  /** The points of the first n words. */
  function PointsSum(ws: seq<Word>, n: nat): (sum: int)
    requires n <= |ws|
    ensures -3 * n <= sum <= 4 * n
  {
    if n == 0 then 0 else PointsSum(ws, n - 1) + WordPoints(n - 1, ws[n - 1])
  }

  /** The score of a first row prefix ws: -1000 as soon as one word is NaN or
      infinite, else the sum of the points. */
  function ScoreOf(ws: seq<Word>): (s: int)
    requires |ws| <= ScoredFields
    ensures s == NonFiniteScore <==> exists k :: 0 <= k < |ws| && IsNaNOrInfinity(ws[k])
    ensures s != NonFiniteScore ==> -3 * |ws| <= s <= 4 * |ws|
  {
    if exists k :: 0 <= k < |ws| && IsNaNOrInfinity(ws[k]) then NonFiniteScore else PointsSum(ws, |ws|)
  }

  /** Score(c): the score of the first min(c, 16) words of the payload. */
  function CandidateScore(bytes: seq<byte>, offset: nat, total: nat, c: nat): int
    requires total >= 1 && offset + 4 * total <= |bytes| && Divides(c, total)
  {
    DivisorAtMost(c, total);
    ScoreOf(Words(bytes, offset, Min(c, ScoredFields)))
  }

  function CandidateScores(bytes: seq<byte>, offset: nat, total: nat, cs: seq<nat>): (scores: seq<int>)
    requires total >= 1 && offset + 4 * total <= |bytes|
    requires forall i :: 0 <= i < |cs| ==> Divides(cs[i], total)
    ensures |scores| == |cs|
    ensures forall i :: 0 <= i < |cs| ==> scores[i] == CandidateScore(bytes, offset, total, cs[i])
  {
    seq(|cs|, i requires 0 <= i < |cs| => CandidateScore(bytes, offset, total, cs[i]))
  }

  /** The index OrderByDescending(...).First() picks: the sort is stable, so
      it is the first position holding the largest score. */
  function FirstMaxIndex(scores: seq<int>): (k: nat)
    requires |scores| > 0
    ensures k < |scores|
    ensures forall j :: 0 <= j < |scores| ==> scores[j] <= scores[k]
    ensures forall j :: 0 <= j < k ==> scores[j] < scores[k]
  {
    if |scores| == 1 then 0
    else
      var k := FirstMaxIndex(scores[..|scores| - 1]);
      if scores[|scores| - 1] > scores[k] then |scores| - 1 else k
  }

  /** The two properties of FirstMaxIndex determine it. */
  lemma FirstMaxIndexUnique(scores: seq<int>, k: nat)
    requires k < |scores|
    requires forall j :: 0 <= j < |scores| ==> scores[j] <= scores[k]
    requires forall j :: 0 <= j < k ==> scores[j] < scores[k]
    ensures k == FirstMaxIndex(scores)
  {
  }

  /** The width InferFloatsPerRow picks from the list cands: the first of the
      highest-scoring entries that divide the payload, or the whole payload
      as one row when none divides it. */
  function BestDivisor(bytes: seq<byte>, offset: nat, total: nat, cands: seq<nat>): (w: nat)
    requires total >= 1 && offset + 4 * total <= |bytes|
    ensures w >= 1 && total % w == 0
    ensures DivisibleCandidates(cands, total) == [] ==> w == total
    ensures DivisibleCandidates(cands, total) != [] ==> w in cands
  {
    var cs := DivisibleCandidates(cands, total);
    if |cs| == 0 then total
    else
      var w := cs[FirstMaxIndex(CandidateScores(bytes, offset, total, cs))];
      assert w in cs;
      w
  }

  /** InferFloatsPerRow: a width from the fixed candidate list that divides the
      payload, or the whole payload. */
  function InferredWidth(bytes: seq<byte>, offset: nat, total: nat): (w: nat)
    requires total >= 1 && offset + 4 * total <= |bytes|
    ensures w >= 1 && total % w == 0
    ensures w in Candidates || w == total
  {
    BestDivisor(bytes, offset, total, Candidates)
  }

  /** Position of the first occurrence of x in xs. */
  function IndexOf(xs: seq<nat>, x: nat): (i: nat)
    requires x in xs
    ensures i < |xs| && xs[i] == x
    ensures forall j :: 0 <= j < i ==> xs[j] != x
  {
    if xs[0] == x then 0 else 1 + IndexOf(xs[1..], x)
  }

  /** The stable first-maximum rule, stated over the candidate list itself: no
      dividing candidate scores higher than the chosen width, and one that
      scores the same does not come before it in the list. */
  lemma BestDivisorIsFirstBest(bytes: seq<byte>, offset: nat, total: nat, cands: seq<nat>, q: nat)
    requires total >= 1 && offset + 4 * total <= |bytes|
    requires q < |cands| && Divides(cands[q], total)
    ensures BestDivisor(bytes, offset, total, cands) in cands
    ensures var w := BestDivisor(bytes, offset, total, cands);
            Divides(w, total) &&
            CandidateScore(bytes, offset, total, cands[q]) <= CandidateScore(bytes, offset, total, w) &&
            (CandidateScore(bytes, offset, total, cands[q]) == CandidateScore(bytes, offset, total, w) ==>
               IndexOf(cands, w) <= q)
  {
    var ps := DivisiblePositions(cands, total, 0);
    var cs := DivisibleCandidates(cands, total);
    assert |cs| == |ps| && forall i :: 0 <= i < |ps| ==> cs[i] == cands[ps[i]];
    var scores := CandidateScores(bytes, offset, total, cs);
    var i :| 0 <= i < |ps| && ps[i] == q;
    var k := FirstMaxIndex(scores);
    FirstMaxAmongPositions(ps, scores, i);
    var w := cands[ps[k]];
    assert BestDivisor(bytes, offset, total, cands) == w;
    assert scores[i] == CandidateScore(bytes, offset, total, cands[q]);
    assert scores[k] == CandidateScore(bytes, offset, total, w);
    assert IndexOf(cands, w) <= ps[k] by {
      assert cands[ps[k]] == w;
    }
  }

  /** The first maximum over scores attached to increasing positions is no
      later than any other position with the same score. */
  lemma FirstMaxAmongPositions(ps: seq<nat>, scores: seq<int>, i: nat)
    requires |ps| == |scores| && i < |ps|
    requires forall a, b :: 0 <= a < b < |ps| ==> ps[a] < ps[b]
    ensures scores[i] <= scores[FirstMaxIndex(scores)]
    ensures scores[i] == scores[FirstMaxIndex(scores)] ==> ps[FirstMaxIndex(scores)] <= ps[i]
  {
  }

  /** Scoring a candidate that divides the payload reads only words of the
      first row, and all of them lie inside the buffer. */
  lemma ScoreReadsInBounds(len: nat, offset: nat, total: nat, c: nat)
    requires total >= 1 && offset + 4 * total <= len && Divides(c, total)
    ensures Min(c, ScoredFields) <= c
    ensures offset + 4 * Min(c, ScoredFields) <= len
  {
    DivisorAtMost(c, total);
  }

  /** A candidate whose inspected words hold a NaN or an infinity ranks below
      every candidate whose inspected words are all finite. */
  lemma NonFiniteRanksLast(ws1: seq<Word>, ws2: seq<Word>)
    requires |ws1| <= ScoredFields && |ws2| <= ScoredFields
    requires exists k :: 0 <= k < |ws1| && IsNaNOrInfinity(ws1[k])
    requires forall k :: 0 <= k < |ws2| ==> !IsNaNOrInfinity(ws2[k])
    ensures ScoreOf(ws1) < ScoreOf(ws2)
  {
  }

  /** With no dividing candidate the whole payload is one row. */
  lemma BestDivisorFallback(bytes: seq<byte>, offset: nat, total: nat, cands: seq<nat>)
    requires total >= 1 && offset + 4 * total <= |bytes|
    requires forall c :: c in cands ==> !Divides(c, total)
    ensures BestDivisor(bytes, offset, total, cands) == total
    ensures total / BestDivisor(bytes, offset, total, cands) == 1
  {
    DivSelf(total);
  }

  lemma DivSelf(x: nat)
    requires x >= 1
    ensures x / x == 1
  {
  }

  /** Score(c), as the source writes it: a loop over the first min(c, 16)
      words with an early return on a NaN or an infinity. */
  method Score(bytes: array<byte>, offset: nat, c: nat) returns (score: int)
    requires offset + 4 * Min(c, ScoredFields) <= bytes.Length
    ensures score == ScoreOf(Words(bytes[..], offset, Min(c, ScoredFields)))
  {
    score := 0;
    var limit := Min(c, ScoredFields);
    ghost var ws := Words(bytes[..], offset, limit);
    for i := 0 to limit
      invariant forall k :: 0 <= k < i ==> !IsNaNOrInfinity(ws[k])
      invariant score == PointsSum(ws, i)
    {
      var v := ReadWordAt(bytes, offset + i * 4);
      if IsNaNOrInfinity(v) {
        assert ws[i] == v;
        return NonFiniteScore;
      }
      if i == 0 && InClosedRange(v, F45, F65) {
        score := score + 4;
      }
      if 1 <= i <= 6 && InClosedRange(v, F100, F550) {
        score := score + 2;
      }
      if 7 <= i <= 12 && InClosedRange(v, Zero, F500) {
        score := score + 1;
      }
      if AbsGreaterThan(v, F1e6) {
        score := score - 3;
      }
    }
  }

  /** InferFloatsPerRow: filter the candidates, score each one (the keys that
      OrderByDescending computes), take the first of the highest. */
  method InferFloatsPerRow(bytes: array<byte>, offset: nat, totalFloats: nat) returns (w: nat)
    requires totalFloats >= 1 && offset + 4 * totalFloats <= bytes.Length
    ensures w == InferredWidth(bytes[..], offset, totalFloats)
  {
    var candidates := DivisibleCandidates(Candidates, totalFloats);
    if |candidates| == 0 {
      return totalFloats;
    }
    ghost var buf := bytes[..];
    var scores: seq<int> := [];
    for i := 0 to |candidates|
      invariant |scores| == i
      invariant ScoresMatch(buf, offset, totalFloats, candidates, scores)
    {
      ScoreReadsInBounds(bytes.Length, offset, totalFloats, candidates[i]);
      var s := Score(bytes, offset, candidates[i]);
      ScoresMatchAppend(buf, offset, totalFloats, candidates, scores, s);
      scores := scores + [s];
    }
    BestDivisorFromScores(buf, offset, totalFloats, Candidates, scores);
    w := candidates[FirstMaxIndex(scores)];
  }

  /** scores holds the scores of the first |scores| candidates of cs. */
  predicate ScoresMatch(bytes: seq<byte>, offset: nat, total: nat, cs: seq<nat>, scores: seq<int>)
    requires total >= 1 && offset + 4 * total <= |bytes|
    requires forall i :: 0 <= i < |cs| ==> Divides(cs[i], total)
  {
    |scores| <= |cs| &&
    forall k :: 0 <= k < |scores| ==> scores[k] == CandidateScore(bytes, offset, total, cs[k])
  }

  lemma ScoresMatchAppend(bytes: seq<byte>, offset: nat, total: nat, cs: seq<nat>, scores: seq<int>, s: int)
    requires total >= 1 && offset + 4 * total <= |bytes|
    requires forall i :: 0 <= i < |cs| ==> Divides(cs[i], total)
    requires ScoresMatch(bytes, offset, total, cs, scores) && |scores| < |cs|
    requires s == ScoreOf(Words(bytes, offset, Min(cs[|scores|], ScoredFields)))
    ensures ScoresMatch(bytes, offset, total, cs, scores + [s])
  {
  }

  /** The scores computed one by one are the keys BestDivisor ranks by. */
  lemma BestDivisorFromScores(bytes: seq<byte>, offset: nat, total: nat, cands: seq<nat>, scores: seq<int>)
    requires total >= 1 && offset + 4 * total <= |bytes|
    requires DivisibleCandidates(cands, total) != []
    requires |scores| == |DivisibleCandidates(cands, total)|
    requires ScoresMatch(bytes, offset, total, DivisibleCandidates(cands, total), scores)
    ensures BestDivisor(bytes, offset, total, cands) == DivisibleCandidates(cands, total)[FirstMaxIndex(scores)]
  {
    var cs := DivisibleCandidates(cands, total);
    assert scores == CandidateScores(bytes, offset, total, cs);
  }

  /** BuildColumns: one default column per field. */
  method BuildColumns(floatsPerRow: nat) returns (cols: seq<UniColumn>)
    ensures cols == DefaultColumns(floatsPerRow)
  {
    cols := [];
    for i := 0 to floatsPerRow
      invariant cols == DefaultColumns(i)
    {
      cols := cols + [UniColumn(i, "Value" + Decimal.NatToString(i + 1), "")];
    }
  }

  /** The number of whole words after the optional prefix of a buffer that
      passed the length check; the bytes of a trailing partial word are never
      read. There is always at least one, so the "No payload." and "No float
      data." checks of Parse can never fire. */
  function PayloadWords(buf: seq<byte>): (total: nat)
    requires |buf| >= MinLength
    ensures |buf| - PrefixOffset(buf) >= 4
    ensures total >= 1
    ensures PrefixOffset(buf) + 4 * total <= |buf| < PrefixOffset(buf) + 4 * total + 4
  {
    (|buf| - PrefixOffset(buf)) / 4
  }

  /** The row width Parse infers for a buffer that passed the length check. */
  function Width(buf: seq<byte>): (w: nat)
    requires |buf| >= MinLength
    ensures w >= 1 && PayloadWords(buf) % w == 0
  {
    InferredWidth(buf, PrefixOffset(buf), PayloadWords(buf))
  }

  /** min(rowCount, maxRows) rows of width w fit in the total words. */
  lemma RowsFit(total: nat, w: nat, maxRows: int)
    requires w >= 1
    ensures RowsToRead(total / w, maxRows) * w <= total
  {
    MulMonotone(RowsToRead(total / w, maxRows), total / w, w);
  }

  /** The number of rows Parse reads: min(total / w, maxRows), or none when
      maxRows is not positive; they always fit in the payload. */
  function RowsRead(total: nat, w: nat, maxRows: int): (n: nat)
    requires w >= 1
    ensures n * w <= total
    ensures maxRows <= 0 ==> n == 0
    ensures maxRows > 0 ==> n == Min(total / w, maxRows)
  {
    RowsFit(total, w, maxRows);
    RowsToRead(total / w, maxRows)
  }

  /** What Parse returns for the buffer (None for null). */
  function ParseSpec(archBytes: Option<seq<byte>>, start: int, periodMs: int, maxRows: int): (r: Result<TableValue, ParseError>)
    ensures r.Failure? <==> archBytes.None? || |archBytes.value| < MinLength
    ensures r.Failure? ==> r.error == ArgumentException(TooSmallMessage)
    ensures r.Success? ==>
              r.value.WellFormed() &&
              |r.value.columns| == Width(archBytes.value) &&
              |r.value.rows| == RowsRead(PayloadWords(archBytes.value), Width(archBytes.value), maxRows)
  {
    if archBytes.None? || |archBytes.value| < MinLength then
      Failure(ArgumentException(TooSmallMessage))
    else
      var buf := archBytes.value;
      var w := Width(buf);
      var n := RowsRead(PayloadWords(buf), w, maxRows);
      Success(DecodedTable(buf, PrefixOffset(buf), w, n, start, periodMs))
  }

  /** A buffer that passes the length check decodes to the rows, timestamps
      and columns of its inferred layout. */
  lemma ParseSpecSuccess(buf: seq<byte>, start: int, periodMs: int, maxRows: int)
    requires |buf| >= MinLength
    ensures 4 * (RowsRead(PayloadWords(buf), Width(buf), maxRows) * Width(buf)) <= 4 * PayloadWords(buf)
    ensures ParseSpec(Some(buf), start, periodMs, maxRows) ==
            Success(DecodedTable(buf, PrefixOffset(buf), Width(buf), RowsRead(PayloadWords(buf), Width(buf), maxRows), start, periodMs))
  {
  }

  /** The decoded table field by field: the columns are the defaults, row i
      starts i periods after the start, and row i, field j is the word at
      byte offset + (i * w + j) * 4 of the buffer, which lies inside it. */
  lemma ParsedTableContents(buf: seq<byte>, start: int, periodMs: int, maxRows: int, t: TableValue, i: nat, j: nat)
    requires ParseSpec(Some(buf), start, periodMs, maxRows) == Success(t)
    requires i < |t.rows| && j < |t.columns|
    ensures t.columns == DefaultColumns(|t.columns|)
    ensures i < |t.time| && t.time[i] == start + i * periodMs
    ensures j < |t.rows[i]| && FieldOffset(PrefixOffset(buf), |t.columns|, i, j) + 4 <= |buf| &&
            t.rows[i][j] == ReadWord(buf, FieldOffset(PrefixOffset(buf), |t.columns|, i, j))
  {
    var w := Width(buf);
    var n := RowsRead(PayloadWords(buf), w, maxRows);
    ParseSpecSuccess(buf, start, periodMs, maxRows);
    TimestampsAt(start, periodMs, n, i);
    DecodedRowsAt(buf, PrefixOffset(buf), w, n, i, j);
  }

  /** Parse: reject a null or short buffer, skip the prefix, infer the width,
      then fill each row array word by word and append it with its timestamp. */
  method Parse(archBytes: array?<byte>, startTimeLocal: int,
               periodMs: int := DefaultPeriodMs, maxRows: int := DefaultMaxRows)
    returns (r: Result<UniArchTable, ParseError>)
    ensures r.Success? ==> fresh(r.value)
    ensures Snapshot(r) == ParseSpec(Contents(archBytes), startTimeLocal, periodMs, maxRows)
  {
    if archBytes == null || archBytes.Length < MinLength {
      return Failure(ArgumentException(TooSmallMessage));
    }
    ghost var buf := archBytes[..];
    var offset := 0;
    if archBytes.Length >= 4 && archBytes[0] == 0x00 && archBytes[1] == 0x00 && archBytes[2] == 0x00 && archBytes[3] == 0xAD {
      offset := 4;
    }
    assert offset == PrefixOffset(buf);
    var payloadBytes := archBytes.Length - offset;
    var totalFloats := payloadBytes / 4;
    assert payloadBytes >= 4 && totalFloats == PayloadWords(buf);
    var floatsPerRow := InferFloatsPerRow(archBytes, offset, totalFloats);
    var rowCount := totalFloats / floatsPerRow;
    var rowsToRead := Min(rowCount, maxRows);
    ghost var n := RowsRead(totalFloats, floatsPerRow, maxRows);
    RowsLoopBound(totalFloats, floatsPerRow, maxRows, rowsToRead);

    var table := new UniArchTable();
    var cols := BuildColumns(floatsPerRow);
    table.columns := table.columns + cols;
    ReadRows(table, archBytes, offset, floatsPerRow, rowsToRead, n, startTimeLocal, periodMs);
    ParseSpecSuccess(buf, startTimeLocal, periodMs, maxRows);
    return Success(table);
  }

  /** With the default arguments a successful Parse reads between 1 and 500
      rows, one minute apart. */
  lemma DefaultRowCount(buf: seq<byte>, start: int, t: TableValue)
    requires ParseSpec(Some(buf), start, DefaultPeriodMs, DefaultMaxRows) == Success(t)
    ensures 1 <= |t.rows| <= DefaultMaxRows
    ensures forall i :: 0 <= i < |t.time| ==> t.time[i] == start + i * DefaultPeriodMs
  {
    var total := PayloadWords(buf);
    var w := Width(buf);
    var n := RowsRead(total, w, DefaultMaxRows);
    ParseSpecSuccess(buf, start, DefaultPeriodMs, DefaultMaxRows);
    AtLeastOneRow(total, w);
    forall i | 0 <= i < |t.time|
      ensures t.time[i] == start + i * DefaultPeriodMs
    {
      TimestampsAt(start, DefaultPeriodMs, n, i);
    }
  }

  /** A width that divides a non-empty payload leaves at least one row. */
  lemma AtLeastOneRow(total: nat, w: nat)
    requires total >= 1 && w >= 1 && total % w == 0
    ensures total / w >= 1
  {
  }

  /** The row loop of Parse: for i below rowsToRead, fill a row array of w
      words from byte offset + i * w * 4 on and append it to the table with
      the timestamp i periods after the start. */
  method ReadRows(table: UniArchTable, bytes: array<byte>, offset: nat, w: nat, rowsToRead: int,
                  ghost n: nat, start: int, periodMs: int)
    requires offset + 4 * (n * w) <= bytes.Length
    requires rowsToRead <= 0 ==> n == 0
    requires rowsToRead > 0 ==> n == rowsToRead
    requires table.Value() == TableValue([], DefaultColumns(w), [])
    modifies table
    ensures table.Value() == DecodedTable(bytes[..], offset, w, n, start, periodMs)
  {
    ghost var buf := bytes[..];
    var i := 0;
    while i < rowsToRead
      invariant 0 <= i <= n
      invariant offset + 4 * (i * w) <= |buf|
      invariant table.Value() == DecodedTable(buf, offset, w, i, start, periodMs)
    {
      RowReadsInBounds(offset, w, i, n, |buf|);
      var row := new Word[w];
      var baseOff: nat := offset + i * w * 4;
      for j := 0 to w
        modifies row
        invariant forall k :: 0 <= k < j ==> row[k] == ReadWord(buf, baseOff + k * 4)
      {
        row[j] := ReadWordAt(bytes, baseOff + j * 4);
      }
      DecodedRowsSnoc(buf, offset, w, i, row[..]);
      TimestampsSnoc(start, periodMs, i);
      table.rows := table.rows + [row[..]];
      table.time := table.time + [start + i * periodMs];
      i := i + 1;
    }
  }

  /** The row loop runs exactly RowsRead times. */
  lemma RowsLoopBound(total: nat, w: nat, maxRows: int, rowsToRead: int)
    requires w >= 1 && rowsToRead == Min(total / w, maxRows)
    ensures rowsToRead <= 0 ==> RowsRead(total, w, maxRows) == 0
    ensures rowsToRead > 0 ==> RowsRead(total, w, maxRows) == rowsToRead
  {
  }

  /** Row i of the rows read, and the row after it, lie inside the buffer. */
  lemma RowReadsInBounds(offset: nat, w: nat, i: nat, n: nat, len: nat)
    requires i < n && offset + 4 * (n * w) <= len
    ensures 0 <= i * w * 4
    ensures offset + i * w * 4 + w * 4 <= len
    ensures offset + 4 * ((i + 1) * w) <= len
  {
    MulMonotone(i + 1, n, w);
    assert (i + 1) * w == i * w + w;
  }
}
