/**
 * ReadExcelData of the older command: the first row is skipped as the
 * header, rows with fewer than eight cells are skipped, and the first eight
 * cells of every other row are read by position.
 */
module LegacyReadSheet {
  import opened Wrappers
  import opened Records
  import opened Sheets

  /** The record of a row with at least eight cells: columns 0 to 7 in order. */
  function LegacyRecord(row: Row): (d: LegacyInterfaceData)
    requires |row| >= 8
  {
    LegacyInterfaceData(row[0], row[1], row[2], row[3], row[4], row[5], row[6], row[7])
  }

  /** The records of `body` (the rows after the header), short rows left out. */
  function KeepLong(body: seq<Row>): seq<LegacyInterfaceData> {
    if body == [] then []
    else
      var last := body[|body| - 1];
      KeepLong(body[..|body| - 1]) + (if |last| < 8 then [] else [LegacyRecord(last)])
  }

  /** What the reader returns for a sheet. */
  function LegacyReadAll(rows: seq<Row>): seq<LegacyInterfaceData>
    requires |rows| >= 1
  {
    KeepLong(rows[1..])
  }

  /** ReadExcelData. A sheet without rows makes the Go code fail on `Rows[1:]`, hence the precondition. */
  method LegacyReadExcelData(rows: seq<Row>) returns (data: seq<LegacyInterfaceData>, err: Option<string>)
    requires |rows| >= 1
    ensures data == LegacyReadAll(rows) && err.None?
  {
    var body := rows[1..];
    data := [];
    for i := 0 to |body|
      invariant data == KeepLong(body[..i])
    {
      assert body[..i + 1][..i] == body[..i];
      var row := body[i];
      if |row| < 8 {
        continue;
      }
      data := data + [LegacyRecord(row)];
    }
    assert body[..|body|] == body;
    err := None;
  }

  // ---------------------------------------------------------------------
  // Properties

  /** Reading two runs of rows one after the other reads them in order. */
  lemma {:induction false} KeepLongAppend(a: seq<Row>, b: seq<Row>)
    ensures KeepLong(a + b) == KeepLong(a) + KeepLong(b)
    decreases |b|
  {
    if b == [] {
      assert a + b == a;
    } else {
      var b' := b[..|b| - 1];
      assert (a + b)[..|a + b| - 1] == a + b';
      KeepLongAppend(a, b');
    }
  }

  /** Exactly the rows with at least eight cells give a record, and each gives its own. */
  lemma {:induction false} KeepLongExact(body: seq<Row>)
    ensures |KeepLong(body)| <= |body|
    ensures (forall k :: 0 <= k < |body| ==> |body[k]| >= 8) ==>
      |KeepLong(body)| == |body| && forall k :: 0 <= k < |body| ==> KeepLong(body)[k] == LegacyRecord(body[k])
    decreases |body|
  {
    if body != [] {
      var init := body[..|body| - 1];
      KeepLongExact(init);
      forall k | 0 <= k < |init| ensures init[k] == body[k] { }
    }
  }

  /** A short row anywhere is skipped without a trace. */
  lemma ShortRowSkipped(before: seq<Row>, row: Row, after: seq<Row>)
    requires |row| < 8
    ensures KeepLong(before + [row] + after) == KeepLong(before + after)
  {
    KeepLongAppend(before + [row], after);
    KeepLongAppend(before, after);
    assert (before + [row])[..|before|] == before;
  }

  /** Cells past the eighth are ignored. */
  lemma ExtraCellsIgnored(row: Row, extra: Row)
    requires |row| == 8
    ensures LegacyRecord(row + extra) == LegacyRecord(row)
  {
  }

  /** The first row is never read, whatever it holds. */
  lemma HeaderRowIgnored(header: Row, other: Row, body: seq<Row>)
    ensures LegacyReadAll([header] + body) == LegacyReadAll([other] + body)
  {
    assert ([header] + body)[1..] == body == ([other] + body)[1..];
  }
}
