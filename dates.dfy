/**
 * The calendar date the audit run is stamped with. The clock itself is not
 * modelled: the date is passed in, and only Go's `02012006` layout
 * (DDMMYYYY) is.
 */
module Dates {
  import opened Text

  datatype Date = Date(day: nat, month: nat, year: nat)

  /** A date `time.Time` can hold in the years the layout pads to four digits. */
  predicate Valid(d: Date) {
    1 <= d.day <= 31 && 1 <= d.month <= 12 && d.year <= 9999
  }

  /**
   * Go's layout `02012006`: two-digit day, two-digit month, year padded to
   * four digits.
   */
  function DDMMYYYY(d: Date): (stamp: string)
    ensures AllDigits(stamp)
    ensures Valid(d) ==> |stamp| == 8
  {
    FieldWidths(d);
    Padded(d.day, 2) + Padded(d.month, 2) + Padded(d.year, 4)
  }

  lemma FieldWidths(d: Date)
    ensures Valid(d) ==>
      |NatToDecimal(d.day)| <= 2 && |NatToDecimal(d.month)| <= 2 && |NatToDecimal(d.year)| <= 4
  {
    if Valid(d) {
      SmallDecimalLength(d.day, 2);
      SmallDecimalLength(d.month, 2);
      SmallDecimalLength(d.year, 4);
    }
  }

  /** The name of the sheet an audit run on `d` writes and compares. */
  function AuditSheetName(d: Date): (name: string)
    ensures |name| >= 6 && name[..6] == "Audit "
  {
    "Audit " + DDMMYYYY(d)
  }

  /** The stamp of a valid date reads back as that date, field by field. */
  lemma StampRoundTrip(d: Date)
    requires Valid(d)
    ensures var s := DDMMYYYY(d);
      && AllDigits(s[0..2]) && DecimalValue(s[0..2]) == d.day
      && AllDigits(s[2..4]) && DecimalValue(s[2..4]) == d.month
      && AllDigits(s[4..8]) && DecimalValue(s[4..8]) == d.year
  {
    FieldWidths(d);
    var s := DDMMYYYY(d);
    assert s[0..2] == Padded(d.day, 2);
    assert s[2..4] == Padded(d.month, 2);
    assert s[4..8] == Padded(d.year, 4);
  }

  /** Two valid dates give the same sheet name only if they are the same date. */
  lemma AuditSheetNameInjective(d1: Date, d2: Date)
    requires Valid(d1) && Valid(d2)
    requires AuditSheetName(d1) == AuditSheetName(d2)
    ensures d1 == d2
  {
    assert DDMMYYYY(d1) == AuditSheetName(d1)[6..];
    assert DDMMYYYY(d2) == AuditSheetName(d2)[6..];
    StampRoundTrip(d1);
    StampRoundTrip(d2);
  }
}
