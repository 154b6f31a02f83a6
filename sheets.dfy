/**
 * The spreadsheet rows the audit writes: the "Baseline" sheet of a first
 * run (CreateExcel) and the dated "Audit DDMMYYYY" sheet of later runs
 * (UpdateExcel). A sheet is its name and its rows of text cells; opening and
 * saving the workbook file is not modelled.
 */
module Sheets {
  import opened Records
  import opened Dates

  type Row = seq<string>

  /** An xlsx sheet as the writers build it: rows added one at a time, cells added to the last row. */
  class Sheet {
    const name: string
    var rows: seq<Row>

    constructor(name: string)
      ensures this.name == name && rows == []
    {
      this.name := name;
      rows := [];
    }

    /** sheet.AddRow: a new, empty last row. */
    method AddRow()
      modifies this
      ensures rows == old(rows) + [[]]
    {
      rows := rows + [[]];
    }

    /** row.AddCell().Value = value, on the last row added. */
    method AddCell(value: string)
      requires |rows| > 0
      modifies this
      ensures |rows| == |old(rows)|
      ensures rows[..|rows| - 1] == old(rows)[..|rows| - 1]
      ensures rows[|rows| - 1] == old(rows)[|rows| - 1] + [value]
    {
      rows := rows[..|rows| - 1] + [rows[|rows| - 1] + [value]];
    }

    /** AddRow followed by one AddCell per value. */
    method AddRowOf(cells: Row)
      modifies this
      ensures rows == old(rows) + [cells]
    {
      AddRow();
      var i := 0;
      while i < |cells|
        invariant 0 <= i <= |cells|
        invariant rows == old(rows) + [cells[..i]]
      {
        AddCell(cells[i]);
        assert cells[..i + 1] == cells[..i] + [cells[i]];
        i := i + 1;
      }
      assert cells[..i] == cells;
    }
  }

  const BaselineSheetName := "Baseline"
  const Unallocated := "Unallocated"

  const CreateHeaders: Row :=
    ["Switch Name", "Interface", "SLOT", "PORT", "Description", "Status", "VLAN", "Duplex", "Speed", "Type"]

  const UpdateHeaders: Row :=
    ["Switch Name", "Interface", "SLOT", "PORT", "TYPE", "Port Status", "VLAN", "Duplex", "SPEED", "Port Description"]

  /** One data row of the Baseline sheet: the record's fields in declaration order. */
  function CreateRow(d: InterfaceData): (r: Row)
    ensures |r| == |CreateHeaders|
  {
    [d.Node, d.Interface, d.Slot, d.Port, d.Description, d.Status, d.VLAN, d.Duplex, d.Speed, d.Type]
  }

  /** The Description an audit sheet shows: "Unallocated" for an empty one. */
  function ShownDescription(description: string): (s: string)
    ensures s != ""
    ensures description != "" ==> s == description
  {
    if description == "" then Unallocated else description
  }

  /** One data row of an audit sheet: Type moved forward, Description last and never empty. */
  function UpdateRow(d: InterfaceData): (r: Row)
    ensures |r| == |UpdateHeaders|
    ensures r[9] != ""
  {
    [d.Node, d.Interface, d.Slot, d.Port, d.Type, d.Status, d.VLAN, d.Duplex, d.Speed, ShownDescription(d.Description)]
  }

  /** The rows CreateExcel writes: the header row, then one row per record in order. */
  function CreateLayout(data: seq<InterfaceData>): (rows: seq<Row>)
    ensures |rows| == |data| + 1 && rows[0] == CreateHeaders
    ensures forall k :: 0 <= k < |data| ==> rows[k + 1] == CreateRow(data[k])
  {
    [CreateHeaders] + seq(|data|, k requires 0 <= k < |data| => CreateRow(data[k]))
  }

  /** The rows UpdateExcel writes: the header row, then one row per record in order. */
  function UpdateLayout(data: seq<InterfaceData>): (rows: seq<Row>)
    ensures |rows| == |data| + 1 && rows[0] == UpdateHeaders
    ensures forall k :: 0 <= k < |data| ==> rows[k + 1] == UpdateRow(data[k])
  {
    [UpdateHeaders] + seq(|data|, k requires 0 <= k < |data| => UpdateRow(data[k]))
  }

  /** CreateExcel: a new "Baseline" sheet holding the header row and one row per record. */
  method CreateExcel(data: seq<InterfaceData>) returns (sheet: Sheet)
    ensures fresh(sheet)
    ensures sheet.name == BaselineSheetName && sheet.rows == CreateLayout(data)
  {
    sheet := new Sheet(BaselineSheetName);
    sheet.AddRowOf(CreateHeaders);
    var i := 0;
    while i < |data|
      invariant 0 <= i <= |data|
      invariant sheet.rows == CreateLayout(data[..i])
    {
      var ci := data[i];
      sheet.AddRowOf([ci.Node, ci.Interface, ci.Slot, ci.Port, ci.Description, ci.Status, ci.VLAN, ci.Duplex, ci.Speed, ci.Type]);
      CreateLayoutStep(data, i);
      i := i + 1;
    }
    assert data[..i] == data;
  }

  /** One more record adds its row at the end of the Baseline layout. */
  lemma CreateLayoutStep(data: seq<InterfaceData>, i: nat)
    requires i < |data|
    ensures CreateLayout(data[..i + 1]) == CreateLayout(data[..i]) + [CreateRow(data[i])]
  {
    hide CreateRow;
    var longer, shorter := CreateLayout(data[..i + 1]), CreateLayout(data[..i]);
    forall k | 0 <= k < |longer| ensures longer[k] == (shorter + [CreateRow(data[i])])[k] {
      if 0 < k <= i {
        assert longer[k] == CreateRow(data[..i + 1][k - 1]) && shorter[k] == CreateRow(data[..i][k - 1]);
      }
    }
  }

  /** UpdateExcel: a new sheet named after the run's date, holding the header row and one row per record. */
  method UpdateExcel(data: seq<InterfaceData>, today: Date) returns (sheet: Sheet)
    ensures fresh(sheet)
    ensures sheet.name == AuditSheetName(today) && sheet.rows == UpdateLayout(data)
  {
    hide AuditSheetName;
    sheet := new Sheet(AuditSheetName(today));
    sheet.AddRowOf(UpdateHeaders);
    var i := 0;
    while i < |data|
      invariant 0 <= i <= |data|
      invariant sheet.rows == UpdateLayout(data[..i])
    {
      var ci := data[i];
      var description := ci.Description;
      if description == "" {
        description := Unallocated;
      }
      assert [ci.Node, ci.Interface, ci.Slot, ci.Port, ci.Type, ci.Status, ci.VLAN, ci.Duplex, ci.Speed, description] == UpdateRow(ci);
      sheet.AddRowOf([ci.Node, ci.Interface, ci.Slot, ci.Port, ci.Type, ci.Status, ci.VLAN, ci.Duplex, ci.Speed, description]);
      UpdateLayoutStep(data, i);
      i := i + 1;
    }
    assert data[..i] == data;
  }

  /** One more record adds its row at the end of the audit layout. */
  lemma UpdateLayoutStep(data: seq<InterfaceData>, i: nat)
    requires i < |data|
    ensures UpdateLayout(data[..i + 1]) == UpdateLayout(data[..i]) + [UpdateRow(data[i])]
  {
    hide UpdateRow;
    var longer, shorter := UpdateLayout(data[..i + 1]), UpdateLayout(data[..i]);
    forall k | 0 <= k < |longer| ensures longer[k] == (shorter + [UpdateRow(data[i])])[k] {
      if 0 < k <= i {
        assert longer[k] == UpdateRow(data[..i + 1][k - 1]) && shorter[k] == UpdateRow(data[..i][k - 1]);
      }
    }
  }

  /** The two sheets order their columns differently from the fifth column on. */
  lemma LayoutsDiffer(d: InterfaceData)
    requires d.Description != d.Type
    ensures CreateRow(d)[..4] == UpdateRow(d)[..4]
    ensures CreateRow(d)[4] == d.Description && UpdateRow(d)[4] == d.Type
    ensures CreateRow(d)[4] != UpdateRow(d)[4]
  {
  }

  /** An audit row keeps every field but Description verbatim; only an empty Description is replaced. */
  lemma UpdateRowKeepsFields(d: InterfaceData, e: InterfaceData)
    requires UpdateRow(d) == UpdateRow(e)
    ensures d.Node == e.Node && d.Interface == e.Interface && d.Slot == e.Slot && d.Port == e.Port
    ensures d.Type == e.Type && d.Status == e.Status && d.VLAN == e.VLAN && d.Duplex == e.Duplex && d.Speed == e.Speed
    ensures d.Description == e.Description || {d.Description, e.Description} == {"", Unallocated}
  {
    assert UpdateRow(d)[9] == UpdateRow(e)[9];
  }
}
