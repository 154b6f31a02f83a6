/**
 * ReadExcelData of the current command: the first row is taken as the
 * header, and every later row becomes one record. Each field is fetched
 * with getCellValue under the NAME OF THE STRUCT FIELD the header text maps
 * to ("Node", "Slot", ...), not under the header text, so a field is only
 * ever filled when the header row literally holds its field name.
 */
module ReadSheet {
  import opened Wrappers
  import opened Records
  import opened Sheets

  /** headerMap: header text to column, a later duplicate overriding an earlier one. */
  function HeaderIndex(header: Row): map<string, nat> {
    if header == [] then map[]
    else HeaderIndex(header[..|header| - 1])[header[|header| - 1] := |header| - 1]
  }

  /** The header map knows exactly the header texts, and sends each to the LAST column it heads. */
  lemma {:induction false} HeaderIndexSound(header: Row)
    ensures var m := HeaderIndex(header); forall h :: h in m <==> h in header
    ensures var m := HeaderIndex(header); forall h :: h in m ==>
      m[h] < |header| && header[m[h]] == h && forall j :: m[h] < j < |header| ==> header[j] != h
  {
    if header != [] {
      var init := header[..|header| - 1];
      HeaderIndexSound(init);
      assert header == init + [header[|header| - 1]];
      forall j | 0 <= j < |init| ensures header[j] == init[j] { }
    }
  }

  /** `x` is read from column `j` when it heads `j` and no later column. */
  lemma HeadedAt(h: Row, x: string, j: nat)
    requires j < |h| && h[j] == x && x !in h[j + 1..]
    ensures x in HeaderIndex(h) && HeaderIndex(h)[x] == j
  {
    HeaderIndexSound(h);
  }

  /** A text that heads no column is not in the header map. */
  lemma Unheaded(h: Row, x: string)
    requires x !in h
    ensures x !in HeaderIndex(h)
  {
    HeaderIndexSound(h);
  }

  /** The header texts the reader knows, and the record field each is read into. */
  const HeaderMapping: map<string, string> := map[
    "Switch Name" := "Node",
    "Interface" := "Interface",
    "SLOT" := "Slot",
    "PORT" := "Port",
    "TYPE" := "Type",
    "Port Status" := "Status",
    "VLAN" := "VLAN",
    "Duplex" := "Duplex",
    "SPEED" := "Speed",
    "Port Description" := "Description"]

  /** getCellValue: the cell in the header's column, or "" when the header is unknown or the row too short. */
  function GetCellValue(row: Row, headerMap: map<string, nat>, header: string): (v: string)
    ensures header in headerMap && headerMap[header] < |row| ==> v == row[headerMap[header]]
    ensures !(header in headerMap && headerMap[header] < |row|) ==> v == ""
  {
    if header in headerMap && headerMap[header] < |row| then row[headerMap[header]] else ""
  }

  /**
   * The record one data row gives: each field is looked up under the name
   * HeaderMapping gives its header text, which is the field's own name.
   */
  function ReadRecord(row: Row, headerMap: map<string, nat>): InterfaceData {
    InterfaceData(
      Node := GetCellValue(row, headerMap, HeaderMapping["Switch Name"]),
      Interface := GetCellValue(row, headerMap, HeaderMapping["Interface"]),
      Slot := GetCellValue(row, headerMap, HeaderMapping["SLOT"]),
      Port := GetCellValue(row, headerMap, HeaderMapping["PORT"]),
      Type := GetCellValue(row, headerMap, HeaderMapping["TYPE"]),
      Status := GetCellValue(row, headerMap, HeaderMapping["Port Status"]),
      VLAN := GetCellValue(row, headerMap, HeaderMapping["VLAN"]),
      Duplex := GetCellValue(row, headerMap, HeaderMapping["Duplex"]),
      Speed := GetCellValue(row, headerMap, HeaderMapping["SPEED"]),
      Description := GetCellValue(row, headerMap, HeaderMapping["Port Description"]))
  }

  /** The names ReadRecord looks up are the ones HeaderMapping sends the header texts to. */
  lemma LookupNames()
    ensures HeaderMapping["Switch Name"] == "Node" && HeaderMapping["Interface"] == "Interface"
    ensures HeaderMapping["SLOT"] == "Slot" && HeaderMapping["PORT"] == "Port"
    ensures HeaderMapping["TYPE"] == "Type" && HeaderMapping["Port Status"] == "Status"
    ensures HeaderMapping["VLAN"] == "VLAN" && HeaderMapping["Duplex"] == "Duplex"
    ensures HeaderMapping["SPEED"] == "Speed" && HeaderMapping["Port Description"] == "Description"
  {
  }

  /** Through HeaderMapping, the reader looks every field up under the field's own name. */
  lemma ReadsFieldNames(row: Row, hm: map<string, nat>)
    ensures var r := ReadRecord(row, hm);
      && r.Node == GetCellValue(row, hm, "Node") && r.Interface == GetCellValue(row, hm, "Interface")
      && r.Slot == GetCellValue(row, hm, "Slot") && r.Port == GetCellValue(row, hm, "Port")
      && r.Type == GetCellValue(row, hm, "Type") && r.Status == GetCellValue(row, hm, "Status")
      && r.VLAN == GetCellValue(row, hm, "VLAN") && r.Duplex == GetCellValue(row, hm, "Duplex")
      && r.Speed == GetCellValue(row, hm, "Speed") && r.Description == GetCellValue(row, hm, "Description")
  {
    LookupNames();
  }

  /** What the reader returns for `rows`: one record per row after the header. */
  function ReadAll(rows: seq<Row>): (data: seq<InterfaceData>)
    requires |rows| >= 1
    ensures |data| == |rows| - 1
  {
    var hm := HeaderIndex(rows[0]);
    seq(|rows| - 1, k requires 0 <= k < |rows| - 1 => ReadRecord(rows[k + 1], hm))
  }

  /** ReadExcelData. A sheet without rows makes the Go code fail on `Rows[0]`, hence the precondition. */
  method ReadExcelData(rows: seq<Row>) returns (data: seq<InterfaceData>, err: Option<string>)
    requires |rows| >= 1
    ensures data == ReadAll(rows) && err.None?
  {
    hide ReadRecord;
    var headerMap: map<string, nat> := map[];
    var header := rows[0];
    var i := 0;
    while i < |header|
      invariant 0 <= i <= |header|
      invariant headerMap == HeaderIndex(header[..i])
    {
      assert header[..i + 1][..i] == header[..i];
      headerMap := headerMap[header[i] := i];
      i := i + 1;
    }
    assert header[..i] == header;
    data := [];
    var r := 1;
    while r < |rows|
      invariant 1 <= r <= |rows|
      invariant |data| == r - 1
      invariant forall k :: 0 <= k < r - 1 ==> data[k] == ReadRecord(rows[k + 1], headerMap)
    {
      data := data + [ReadRecord(rows[r], headerMap)];
      r := r + 1;
    }
    err := None;
  }

  // ---------------------------------------------------------------------
  // Properties

  /**
   * A field comes back non-empty only if the header row holds the field's
   * own name, whatever the header texts the mapping lists.
   */
  lemma FieldNeedsItsName(rows: seq<Row>, k: nat)
    requires |rows| >= 1 && k < |rows| - 1
    ensures ReadAll(rows)[k].Node != "" ==> "Node" in rows[0]
    ensures ReadAll(rows)[k].Slot != "" ==> "Slot" in rows[0]
    ensures ReadAll(rows)[k].Port != "" ==> "Port" in rows[0]
    ensures ReadAll(rows)[k].Status != "" ==> "Status" in rows[0]
    ensures ReadAll(rows)[k].Description != "" ==> "Description" in rows[0]
  {
    hide ReadRecord;
    HeaderIndexSound(rows[0]);
    ReadsFieldNames(rows[k + 1], HeaderIndex(rows[0]));
  }

  /** A field whose name heads a column is read from that column (the last such column). */
  lemma FieldReadFromItsColumn(rows: seq<Row>, k: nat, j: nat)
    requires |rows| >= 1 && k < |rows| - 1
    requires j < |rows[0]| && j < |rows[k + 1]| && rows[0][j] == "Interface"
    requires forall i :: j < i < |rows[0]| ==> rows[0][i] != "Interface"
    ensures ReadAll(rows)[k].Interface == rows[k + 1][j]
  {
    HeadedAt(rows[0], "Interface", j);
  }

  /** The header index of the Baseline sheet. */
  lemma BaselineHeaderIndex(h: Row)
    requires h == CreateHeaders
    ensures var hm := HeaderIndex(h);
      && "Node" !in hm && "Slot" !in hm && "Port" !in hm
      && "Interface" in hm && "Description" in hm && "Status" in hm && "VLAN" in hm
      && "Duplex" in hm && "Speed" in hm && "Type" in hm
      && hm["Interface"] == 1 && hm["Description"] == 4 && hm["Status"] == 5 && hm["VLAN"] == 6
      && hm["Duplex"] == 7 && hm["Speed"] == 8 && hm["Type"] == 9
  {
    BaselineUnheaded(h);
    BaselineHeadedLeft(h);
    BaselineHeadedRight(h);
  }

  lemma BaselineUnheaded(h: Row)
    requires h == CreateHeaders
    ensures var hm := HeaderIndex(h); "Node" !in hm && "Slot" !in hm && "Port" !in hm
  {
    Unheaded(h, "Node");
    Unheaded(h, "Slot");
    Unheaded(h, "Port");
  }

  lemma BaselineHeadedLeft(h: Row)
    requires h == CreateHeaders
    ensures var hm := HeaderIndex(h);
      && "Interface" in hm && "Description" in hm && "Status" in hm
      && hm["Interface"] == 1 && hm["Description"] == 4 && hm["Status"] == 5
  {
    HeadedAt(h, "Interface", 1);
    HeadedAt(h, "Description", 4);
    HeadedAt(h, "Status", 5);
  }

  lemma BaselineHeadedRight(h: Row)
    requires h == CreateHeaders
    ensures var hm := HeaderIndex(h);
      && "VLAN" in hm && "Duplex" in hm && "Speed" in hm && "Type" in hm
      && hm["VLAN"] == 6 && hm["Duplex"] == 7 && hm["Speed"] == 8 && hm["Type"] == 9
  {
    HeadedAt(h, "VLAN", 6);
    HeadedAt(h, "Duplex", 7);
    HeadedAt(h, "Speed", 8);
    HeadedAt(h, "Type", 9);
  }

  /** The header index of an audit sheet. */
  lemma AuditHeaderIndex(h: Row)
    requires h == UpdateHeaders
    ensures var hm := HeaderIndex(h);
      && "Node" !in hm && "Slot" !in hm && "Port" !in hm && "Type" !in hm && "Status" !in hm
      && "Speed" !in hm && "Description" !in hm
      && "Interface" in hm && "VLAN" in hm && "Duplex" in hm
      && hm["Interface"] == 1 && hm["VLAN"] == 6 && hm["Duplex"] == 7
  {
    AuditUnheadedKeys(h);
    AuditUnheadedFields(h);
    AuditHeaded(h);
  }

  lemma AuditUnheadedKeys(h: Row)
    requires h == UpdateHeaders
    ensures var hm := HeaderIndex(h); "Node" !in hm && "Slot" !in hm && "Port" !in hm
  {
    Unheaded(h, "Node");
    Unheaded(h, "Slot");
    Unheaded(h, "Port");
  }

  lemma AuditUnheadedFields(h: Row)
    requires h == UpdateHeaders
    ensures var hm := HeaderIndex(h);
      "Type" !in hm && "Status" !in hm && "Speed" !in hm && "Description" !in hm
  {
    Unheaded(h, "Type");
    Unheaded(h, "Status");
    Unheaded(h, "Speed");
    Unheaded(h, "Description");
  }

  lemma AuditHeaded(h: Row)
    requires h == UpdateHeaders
    ensures var hm := HeaderIndex(h);
      && "Interface" in hm && "VLAN" in hm && "Duplex" in hm
      && hm["Interface"] == 1 && hm["VLAN"] == 6 && hm["Duplex"] == 7
  {
    HeadedAt(h, "Interface", 1);
    HeadedAt(h, "VLAN", 6);
    HeadedAt(h, "Duplex", 7);
  }

  /** Reading back a Baseline sheet loses Node, Slot and Port and keeps every other field. */
  lemma ReadBackBaseline(data: seq<InterfaceData>)
    ensures ReadAll(CreateLayout(data)) == seq(|data|, k requires 0 <= k < |data| => data[k].(Node := "", Slot := "", Port := ""))
  {
    hide ReadRecord, HeaderIndex;
    var rows := CreateLayout(data);
    BaselineHeaderIndex(rows[0]);
    forall k | 0 <= k < |data| ensures ReadAll(rows)[k] == data[k].(Node := "", Slot := "", Port := "") {
      ReadsFieldNames(rows[k + 1], HeaderIndex(rows[0]));
    }
  }

  /** Reading back an audit sheet keeps only Interface, VLAN and Duplex. */
  lemma ReadBackAudit(data: seq<InterfaceData>)
    ensures ReadAll(UpdateLayout(data)) ==
      seq(|data|, k requires 0 <= k < |data| => InterfaceData("", data[k].Interface, "", "", "", "", data[k].VLAN, data[k].Duplex, "", ""))
  {
    hide ReadRecord, HeaderIndex;
    var rows := UpdateLayout(data);
    AuditHeaderIndex(rows[0]);
    forall k | 0 <= k < |data|
      ensures ReadAll(rows)[k] == InterfaceData("", data[k].Interface, "", "", "", "", data[k].VLAN, data[k].Duplex, "", "")
    {
      ReadsFieldNames(rows[k + 1], HeaderIndex(rows[0]));
    }
  }
}
