/**
 * The baseline comparison: the audit sheet's records are checked against
 * the Baseline sheet's, one report per node is written, and the number of
 * records that changed is returned.
 *
 * Report files are values: a File is its content and the offset the next
 * write starts at, and writing overwrites from that offset on, as an
 * `os.File` opened with `os.Create` does. The file names (which hold the
 * node and the time) are not modelled: reports are keyed by node. The time
 * stamps come in as parameters.
 */
module CompareSheets {
  import opened Wrappers
  import opened Text
  import opened Records
  import opened Dates
  import opened Sheets
  import ReadSheet

  // ---------------------------------------------------------------------
  // FilterData

  /** The nodes that occur in `data`. */
  function NodesOf(data: seq<InterfaceData>): set<string> {
    set d | d in data :: d.Node
  }

  /** The records of `refData` whose node is in `nodes`, in their order. */
  function Filtered(refData: seq<InterfaceData>, nodes: set<string>): seq<InterfaceData> {
    if refData == [] then []
    else
      var last := refData[|refData| - 1];
      Filtered(refData[..|refData| - 1], nodes) + (if last.Node in nodes then [last] else [])
  }

  /** FilterData: keeps the reference records of the nodes the new data covers. */
  method FilterData(refData: seq<InterfaceData>, newData: seq<InterfaceData>) returns (filtered: seq<InterfaceData>)
    ensures filtered == Filtered(refData, NodesOf(newData))
  {
    var newNodes: map<string, bool> := map[];
    for i := 0 to |newData|
      invariant newNodes.Keys == NodesOf(newData[..i])
      invariant forall n :: n in newNodes ==> newNodes[n]
    {
      assert newData[..i + 1] == newData[..i] + [newData[i]];
      newNodes := newNodes[newData[i].Node := true];
    }
    assert newData[..|newData|] == newData;
    filtered := [];
    for i := 0 to |refData|
      invariant filtered == Filtered(refData[..i], newNodes.Keys)
    {
      assert refData[..i + 1][..i] == refData[..i];
      var d := refData[i];
      if d.Node in newNodes && newNodes[d.Node] {
        filtered := filtered + [d];
      }
    }
    assert refData[..|refData|] == refData;
  }

  /** A record is kept exactly when it is a reference record of a covered node. */
  lemma {:induction false} FilteredExact(refData: seq<InterfaceData>, nodes: set<string>)
    ensures forall d :: d in Filtered(refData, nodes) <==> d in refData && d.Node in nodes
    ensures |Filtered(refData, nodes)| <= |refData|
  {
    if refData != [] {
      var init := refData[..|refData| - 1];
      FilteredExact(init, nodes);
      assert refData == init + [refData[|refData| - 1]];
    }
  }

  /** Filtering keeps the order: filtering two runs of records filters each in turn. */
  lemma {:induction false} FilteredAppend(a: seq<InterfaceData>, b: seq<InterfaceData>, nodes: set<string>)
    ensures Filtered(a + b, nodes) == Filtered(a, nodes) + Filtered(b, nodes)
    decreases |b|
  {
    if b == [] {
      assert a + b == a;
    } else {
      var b' := b[..|b| - 1];
      assert (a + b)[..|a + b| - 1] == a + b';
      FilteredAppend(a, b', nodes);
    }
  }

  // ---------------------------------------------------------------------
  // compareFields

  function DescriptionDiff(a: InterfaceData, b: InterfaceData): string {
    "Description: Reference(" + a.Description + ") New(" + b.Description + ")"
  }

  function StatusDiff(a: InterfaceData, b: InterfaceData): string {
    "Status: Reference(" + a.Status + ") New(" + b.Status + ")"
  }

  /**
   * compareFields: one line per field that differs, Description before
   * Status; no other field is compared.
   */
  function CompareFields(a: InterfaceData, b: InterfaceData): (diffs: seq<string>)
    ensures |diffs| <= 2
    ensures diffs == [] <==> a.Description == b.Description && a.Status == b.Status
    ensures a.Description != b.Description ==> diffs[0] == DescriptionDiff(a, b)
    ensures a.Status != b.Status ==> diffs[|diffs| - 1] == StatusDiff(a, b)
    ensures |diffs| == 2 ==> a.Description != b.Description && a.Status != b.Status
  {
    (if a.Description != b.Description then [DescriptionDiff(a, b)] else [])
    + (if a.Status != b.Status then [StatusDiff(a, b)] else [])
  }

  /** Only Description and Status matter: records that agree on both compare alike. */
  lemma CompareFieldsOnlyTwoFields(a: InterfaceData, b: InterfaceData, a': InterfaceData, b': InterfaceData)
    requires a.Description == a'.Description && a.Status == a'.Status
    requires b.Description == b'.Description && b.Status == b'.Status
    ensures CompareFields(a, b) == CompareFields(a', b')
  {
  }

  // ---------------------------------------------------------------------
  // The reference map

  /** The key a record is matched under: Node, Slot and Port joined by '-'. */
  function Key(d: InterfaceData): string {
    d.Node + "-" + d.Slot + "-" + d.Port
  }

  /** The key can collide: a '-' inside a field moves between neighbouring fields unnoticed. */
  lemma KeyCollides()
    ensures var a := EmptyRecord.(Node := "sw-1", Slot := "1", Port := "2");
      var b := EmptyRecord.(Node := "sw", Slot := "1-1", Port := "2");
      a != b && Key(a) == Key(b)
  {
    var a := EmptyRecord.(Node := "sw-1", Slot := "1", Port := "2");
    var b := EmptyRecord.(Node := "sw", Slot := "1-1", Port := "2");
    assert a.Node != b.Node by { assert |a.Node| != |b.Node|; }
    assert Key(a) == "sw-1-1-2" == Key(b);
  }

  predicate NoDash(s: string) {
    forall k :: 0 <= k < |s| ==> s[k] != '-'
  }

  /** The first '-' of `a + "-" + rest` is the one after `a`, when `a` has none. */
  lemma FirstDash(a: string, rest: string)
    requires NoDash(a)
    ensures var s := a + "-" + rest;
      s[|a|] == '-' && s[..|a|] == a && s[|a| + 1..] == rest && forall k :: 0 <= k < |a| ==> s[k] != '-'
  {
    var s := a + "-" + rest;
    assert s[..|a|] == a;
    assert s[|a| + 1..] == rest;
  }

  /** With no '-' in Node and Slot, the key determines Node, Slot and Port. */
  lemma KeyInjective(a: InterfaceData, b: InterfaceData)
    requires NoDash(a.Node) && NoDash(a.Slot) && NoDash(b.Node) && NoDash(b.Slot)
    requires Key(a) == Key(b)
    ensures a.Node == b.Node && a.Slot == b.Slot && a.Port == b.Port
  {
    var k := Key(a);
    assert k == a.Node + "-" + (a.Slot + "-" + a.Port);
    assert k == b.Node + "-" + (b.Slot + "-" + b.Port);
    FirstDash(a.Node, a.Slot + "-" + a.Port);
    FirstDash(b.Node, b.Slot + "-" + b.Port);
    assert |a.Node| == |b.Node|;
    var r := k[|a.Node| + 1..];
    FirstDash(a.Slot, a.Port);
    FirstDash(b.Slot, b.Port);
    assert |a.Slot| == |b.Slot|;
  }

  /** refMap: each key to the LAST reference record with that key. */
  function RefMap(refData: seq<InterfaceData>): map<string, InterfaceData> {
    if refData == [] then map[]
    else
      var last := refData[|refData| - 1];
      RefMap(refData[..|refData| - 1])[Key(last) := last]
  }

  /** The map holds exactly the keys of the reference records. */
  lemma {:induction false} RefMapKeys(refData: seq<InterfaceData>)
    ensures forall k :: k in RefMap(refData) <==> exists i :: 0 <= i < |refData| && Key(refData[i]) == k
  {
    if refData != [] {
      var n := |refData| - 1;
      var init := refData[..n];
      RefMapKeys(init);
      forall k ensures k in RefMap(refData) <==> exists i :: 0 <= i < |refData| && Key(refData[i]) == k {
        if k != Key(refData[n]) && exists i :: 0 <= i < |refData| && Key(refData[i]) == k {
          var i :| 0 <= i < |refData| && Key(refData[i]) == k;
          assert Key(init[i]) == k;
        }
        if k in RefMap(init) {
          var i :| 0 <= i < |init| && Key(init[i]) == k;
          assert Key(refData[i]) == k;
        }
      }
    }
  }

  /** Under each key the map holds the last reference record with that key. */
  lemma {:induction false} RefMapLastWins(refData: seq<InterfaceData>)
    ensures forall k :: k in RefMap(refData) ==> LastWith(refData, k, RefMap(refData)[k])
  {
    if refData != [] {
      var n := |refData| - 1;
      var init := refData[..n];
      RefMapLastWins(init);
      var m0 := RefMap(init);
      var m := RefMap(refData);
      forall k | k in m ensures LastWith(refData, k, m[k]) {
        if k == Key(refData[n]) {
          assert LastAt(refData, k, m[k], n);
        } else {
          var i :| 0 <= i < |init| && LastAt(init, k, m0[k], i);
          assert LastAt(refData, k, m[k], i);
        }
      }
    }
  }

  /** `d` is the record at `i`, under key `k`, and no later record has that key. */
  predicate LastAt(refData: seq<InterfaceData>, k: string, d: InterfaceData, i: int) {
    0 <= i < |refData| && refData[i] == d && Key(d) == k && forall j :: i < j < |refData| ==> Key(refData[j]) != k
  }

  predicate LastWith(refData: seq<InterfaceData>, k: string, d: InterfaceData) {
    exists i :: 0 <= i < |refData| && LastAt(refData, k, d, i)
  }

  /** The map building loop. */
  method BuildRefMap(refData: seq<InterfaceData>) returns (refMap: map<string, InterfaceData>)
    ensures refMap == RefMap(refData)
  {
    refMap := map[];
    for i := 0 to |refData|
      invariant refMap == RefMap(refData[..i])
    {
      assert refData[..i + 1][..i] == refData[..i];
      var d := refData[i];
      refMap := refMap[Key(d) := d];
    }
    assert refData[..|refData|] == refData;
  }

  // ---------------------------------------------------------------------
  // The status tally

  /** statusSummary: per node, per status, how many records. */
  type Tally = map<string, map<string, nat>>

  /** One record counted: its node's entry for its status goes up by one, starting from zero. */
  function Tallied(t: Tally, d: InterfaceData): (u: Tally)
    ensures u.Keys == t.Keys + {d.Node}
  {
    var counts := if d.Node in t then t[d.Node] else map[];
    t[d.Node := counts[d.Status := (if d.Status in counts then counts[d.Status] else 0) + 1]]
  }

  /** The tally after counting `data`, one record at a time. */
  function TallyOf(data: seq<InterfaceData>): (t: Tally)
    ensures t.Keys == NodesOf(data)
  {
    if data == [] then map[]
    else
      var init := data[..|data| - 1];
      assert data == init + [data[|data| - 1]];
      Tallied(TallyOf(init), data[|data| - 1])
  }

  lemma NodesOfSnoc(data: seq<InterfaceData>, d: InterfaceData)
    ensures NodesOf(data + [d]) == NodesOf(data) + {d.Node}
  {
  }

  /** Go's two steps, an empty map for a new node then an increment, count one record. */
  lemma TallyStep(t: Tally, t1: Tally, d: InterfaceData)
    requires t1 == if d.Node in t then t else t[d.Node := map[]]
    ensures d.Node in t1
    ensures t1[d.Node := t1[d.Node][d.Status := (if d.Status in t1[d.Node] then t1[d.Node][d.Status] else 0) + 1]]
      == Tallied(t, d)
  {
  }

  lemma TallyOfSnoc(data: seq<InterfaceData>, d: InterfaceData)
    ensures TallyOf(data + [d]) == Tallied(TallyOf(data), d)
  {
    assert (data + [d])[..|data|] == data;
  }

  /** The number of records of `node` with `status`. */
  function CountOf(data: seq<InterfaceData>, node: string, status: string): nat {
    if data == [] then 0
    else
      var d := data[|data| - 1];
      CountOf(data[..|data| - 1], node, status) + (if d.Node == node && d.Status == status then 1 else 0)
  }

  /** The tally counts every node's records by status, and lists exactly the statuses that occur. */
  lemma {:induction false} TallyCounts(data: seq<InterfaceData>, node: string, status: string)
    requires node in TallyOf(data)
    ensures status in TallyOf(data)[node] <==> CountOf(data, node, status) > 0
    ensures status in TallyOf(data)[node] ==> TallyOf(data)[node][status] == CountOf(data, node, status)
  {
    hide TallyOf, Tallied, CountOf;
    TallyOfUnfold(data);
    var init := data[..|data| - 1];
    var d := data[|data| - 1];
    TallyOfUnfold(init);
    TalliedAt(TallyOf(init), d, node, status);
    CountOfUnfold(data, node, status);
    if node in TallyOf(init) {
      TallyCounts(init, node, status);
    } else {
      ZeroCount(init, node, status);
    }
  }

  /** What one more record does to one entry of the tally. */
  lemma TalliedAt(t: Tally, d: InterfaceData, node: string, status: string)
    requires node in Tallied(t, d)
    ensures node in t || node == d.Node
    ensures var before := node in t && status in t[node];
      var hit := d.Node == node && d.Status == status;
      && (status in Tallied(t, d)[node] <==> before || hit)
      && (status in Tallied(t, d)[node] ==>
            Tallied(t, d)[node][status] == (if before then t[node][status] else 0) + (if hit then 1 else 0))
  {
  }

  lemma CountOfUnfold(data: seq<InterfaceData>, node: string, status: string)
    requires data != []
    ensures var d := data[|data| - 1];
      CountOf(data, node, status) == CountOf(data[..|data| - 1], node, status) + (if d.Node == node && d.Status == status then 1 else 0)
  {
  }

  /** TallyOf's keys, and its last step. */
  lemma TallyOfUnfold(data: seq<InterfaceData>)
    ensures TallyOf(data).Keys == NodesOf(data)
    ensures data != [] ==> TallyOf(data) == Tallied(TallyOf(data[..|data| - 1]), data[|data| - 1])
  {
  }

  lemma {:induction false} ZeroCount(data: seq<InterfaceData>, node: string, status: string)
    requires node !in NodesOf(data)
    ensures CountOf(data, node, status) == 0
  {
    if data != [] {
      var init := data[..|data| - 1];
      assert data == init + [data[|data| - 1]];
      ZeroCount(init, node, status);
    }
  }

  // ---------------------------------------------------------------------
  // Report files

  /** An open file: its content, and the offset the next write starts at. */
  datatype File = File(content: string, offset: nat)

  /** A file just created and written `text`. */
  function Created(text: string): File {
    File(text, |text|)
  }

  /** file.WriteString: `s` replaces the content from the offset on, extending the file if needed. */
  function WriteString(f: File, s: string): (g: File)
    requires f.offset <= |f.content|
    ensures g.offset == f.offset + |s| <= |g.content|
    ensures g.content[..f.offset] == f.content[..f.offset]
    ensures g.content[f.offset..g.offset] == s
    ensures |g.content| == if g.offset < |f.content| then |f.content| else g.offset
    ensures g.offset < |f.content| ==> g.content[g.offset..] == f.content[g.offset..]
  {
    var rest := if f.offset + |s| < |f.content| then f.content[f.offset + |s|..] else "";
    File(f.content[..f.offset] + s + rest, f.offset + |s|)
  }

  /** At the end of a file, writing appends. */
  lemma AppendAtEnd(f: File, s: string)
    requires f.offset == |f.content|
    ensures WriteString(f, s) == Created(f.content + s)
  {
    assert f.content[..f.offset] == f.content;
  }

  /** A file just created by os.Create and written `text`. */
  lemma CreateAndWrite(text: string)
    ensures WriteString(File("", 0), text) == Created(text)
  {
    AppendAtEnd(File("", 0), text);
    assert "" + text == text;
  }

  /** file.Seek(0, 0). */
  function Rewound(f: File): File {
    File(f.content, 0)
  }

  // ---------------------------------------------------------------------
  // Report text

  const Separator := "-----------------------------------\n"
  const SummaryTitle := "\nStatus Summary:\n"
  const SummaryRule := "===================================\n"

  function ReportHeader(node: string, currentTime: string): string {
    "Audit Report for " + node + " generated on: " + currentTime + "\n"
  }

  /** The diff lines, each ended by a line feed. */
  function DiffLines(diffs: seq<string>): string {
    if diffs == [] then "" else DiffLines(diffs[..|diffs| - 1]) + diffs[|diffs| - 1] + "\n"
  }

  function DifferenceBlock(d: InterfaceData, diffs: seq<string>): string {
    "Difference found for Node: " + d.Node + ", Slot: " + d.Slot + ", Port: " + d.Port + "\n" + DiffLines(diffs) + Separator
  }

  function NewEntryBlock(d: InterfaceData): string {
    "New entry detected for Node: " + d.Node + ", Slot: " + d.Slot + ", Port: " + d.Port + "\n" + Separator
  }

  /** A new record counts as a difference when it has a reference record that differs in Description or Status. */
  predicate Differs(refMap: map<string, InterfaceData>, d: InterfaceData) {
    Key(d) in refMap && CompareFields(refMap[Key(d)], d) != []
  }

  /** What the comparison writes for one new record: a difference block, a new-entry block, or nothing. */
  function EntryText(refMap: map<string, InterfaceData>, d: InterfaceData): string {
    if Key(d) !in refMap then NewEntryBlock(d)
    else if Differs(refMap, d) then DifferenceBlock(d, CompareFields(refMap[Key(d)], d))
    else ""
  }

  /** The blocks written to `node`'s report for `data`, in order. */
  function Body(refMap: map<string, InterfaceData>, data: seq<InterfaceData>, node: string): string {
    if data == [] then ""
    else
      var d := data[|data| - 1];
      Body(refMap, data[..|data| - 1], node) + (if d.Node == node then EntryText(refMap, d) else "")
  }

  /** diffCount: the number of new records that differ from their reference. */
  function DiffCount(refMap: map<string, InterfaceData>, data: seq<InterfaceData>): nat {
    if data == [] then 0
    else DiffCount(refMap, data[..|data| - 1]) + (if Differs(refMap, data[|data| - 1]) then 1 else 0)
  }

  lemma BodySnoc(refMap: map<string, InterfaceData>, data: seq<InterfaceData>, d: InterfaceData, node: string)
    ensures Body(refMap, data + [d], node) == Body(refMap, data, node) + (if d.Node == node then EntryText(refMap, d) else "")
  {
    assert (data + [d])[..|data|] == data;
  }

  lemma DiffCountSnoc(refMap: map<string, InterfaceData>, data: seq<InterfaceData>, d: InterfaceData)
    ensures DiffCount(refMap, data + [d]) == DiffCount(refMap, data) + (if Differs(refMap, d) then 1 else 0)
  {
    assert (data + [d])[..|data|] == data;
  }

  /** One summary line per status, in `order`. */
  function SummaryLines(order: seq<string>, counts: map<string, nat>): string
    requires forall s :: s in order ==> s in counts
  {
    if order == [] then ""
    else
      var s := order[|order| - 1];
      SummaryLines(order[..|order| - 1], counts) + s + ": " + NatToDecimal(counts[s]) + "\n"
  }

  function SummaryText(order: seq<string>, counts: map<string, nat>): string
    requires forall s :: s in order ==> s in counts
  {
    SummaryTitle + SummaryLines(order, counts) + SummaryRule
  }

  /** `order` lists every key once: one of the orders Go's map iteration may take. */
  ghost predicate Enumerates(order: seq<string>, keys: set<string>) {
    && (forall s :: s in order <==> s in keys)
    && (forall i, j :: 0 <= i < j < |order| ==> order[i] != order[j])
  }

  /** The report of `node` once closed: header and blocks, overwritten from the start by the summary. */
  function FinalReport(node: string, currentTime: string, refMap: map<string, InterfaceData>,
                       newData: seq<InterfaceData>, order: seq<string>): string
    requires node in TallyOf(newData)
    requires forall s :: s in order ==> s in TallyOf(newData)[node]
  {
    var written := ReportHeader(node, currentTime) + Body(refMap, newData, node);
    WriteString(Rewound(Created(written)), SummaryText(order, TallyOf(newData)[node])).content
  }

  // ---------------------------------------------------------------------
  // compareData, phase by phase

  /** After the first loop has seen `data`: a header-only report and a tally entry per node. */
  predicate Prepared(data: seq<InterfaceData>, currentTime: string, nodeFiles: map<string, File>, statusSummary: Tally) {
    && statusSummary == TallyOf(data)
    && nodeFiles.Keys == statusSummary.Keys
    && HeadersOnly(currentTime, nodeFiles)
  }

  predicate HeadersOnly(currentTime: string, nodeFiles: map<string, File>) {
    forall n :: n in nodeFiles ==> nodeFiles[n] == Created(ReportHeader(n, currentTime))
  }

  lemma HeadersOnlyStep(currentTime: string, nodeFiles: map<string, File>, node: string)
    requires HeadersOnly(currentTime, nodeFiles)
    ensures HeadersOnly(currentTime, nodeFiles[node := Created(ReportHeader(node, currentTime))])
  {
  }

  lemma PreparedStep(data: seq<InterfaceData>, d: InterfaceData, currentTime: string,
                     nodeFiles: map<string, File>, statusSummary: Tally,
                     nodeFiles': map<string, File>, seeded: Tally, statusSummary': Tally)
    requires Prepared(data, currentTime, nodeFiles, statusSummary)
    requires d.Node in nodeFiles ==> nodeFiles' == nodeFiles && seeded == statusSummary
    requires d.Node !in nodeFiles ==>
      && nodeFiles' == nodeFiles[d.Node := Created(ReportHeader(d.Node, currentTime))]
      && seeded == statusSummary[d.Node := map[]]
    requires d.Node in seeded
    requires statusSummary' == seeded[d.Node := seeded[d.Node][d.Status :=
      (if d.Status in seeded[d.Node] then seeded[d.Node][d.Status] else 0) + 1]]
    ensures Prepared(data + [d], currentTime, nodeFiles', statusSummary')
  {
    TallyOfSnoc(data, d);
    TallyStep(statusSummary, seeded, d);
    if d.Node !in nodeFiles {
      HeadersOnlyStep(currentTime, nodeFiles, d.Node);
    }
  }

  /** One pass of the first loop: creates the node's report on first sight and counts the status. */
  method PrepareOne(ghost data: seq<InterfaceData>, d: InterfaceData, currentTime: string,
                    nodeFiles: map<string, File>, statusSummary: Tally)
    returns (nodeFiles': map<string, File>, statusSummary': Tally)
    requires Prepared(data, currentTime, nodeFiles, statusSummary)
    ensures Prepared(data + [d], currentTime, nodeFiles', statusSummary')
  {
    nodeFiles', statusSummary' := nodeFiles, statusSummary;
    if d.Node !in nodeFiles' {
      var header := ReportHeader(d.Node, currentTime);
      CreateAndWrite(header);
      nodeFiles' := nodeFiles'[d.Node := WriteString(File("", 0), header)];
      statusSummary' := statusSummary'[d.Node := map[]];
    }
    ghost var seeded := statusSummary';
    var counts := statusSummary'[d.Node];
    statusSummary' := statusSummary'[d.Node := counts[d.Status := (if d.Status in counts then counts[d.Status] else 0) + 1]];
    PreparedStep(data, d, currentTime, nodeFiles, statusSummary, nodeFiles', seeded, statusSummary');
  }

  /** The first loop: a report per node, seeded with its header, and the status tally. */
  method PrepareReports(newData: seq<InterfaceData>, currentTime: string)
    returns (nodeFiles: map<string, File>, statusSummary: Tally)
    ensures nodeFiles.Keys == NodesOf(newData)
    ensures forall n :: n in nodeFiles ==> nodeFiles[n] == Created(ReportHeader(n, currentTime))
    ensures statusSummary == TallyOf(newData)
  {
    nodeFiles := map[];
    statusSummary := map[];
    for i := 0 to |newData|
      invariant Prepared(newData[..i], currentTime, nodeFiles, statusSummary)
    {
      assert newData[..i + 1] == newData[..i] + [newData[i]];
      nodeFiles, statusSummary := PrepareOne(newData[..i], newData[i], currentTime, nodeFiles, statusSummary);
    }
    assert newData[..|newData|] == newData;
    assert HeadersOnly(currentTime, nodeFiles);
  }

  /** The difference text for one record: its heading, one line per diff, the separator. */
  method DifferenceText(d: InterfaceData, diffs: seq<string>) returns (diff: string)
    ensures diff == DifferenceBlock(d, diffs)
  {
    diff := "Difference found for Node: " + d.Node + ", Slot: " + d.Slot + ", Port: " + d.Port + "\n";
    for i := 0 to |diffs|
      invariant diff == "Difference found for Node: " + d.Node + ", Slot: " + d.Slot + ", Port: " + d.Port + "\n" + DiffLines(diffs[..i])
    {
      assert diffs[..i + 1][..i] == diffs[..i];
      diff := diff + diffs[i] + "\n";
    }
    assert diffs[..|diffs|] == diffs;
    diff := diff + Separator;
  }

  /** The comparison of one new record with the reference, appended to its node's open report. */
  method WriteEntry(refMap: map<string, InterfaceData>, d: InterfaceData, file: File)
    returns (differs: bool, written: File)
    requires file.offset == |file.content|
    ensures differs == Differs(refMap, d)
    ensures written == Created(file.content + EntryText(refMap, d))
  {
    differs := false;
    written := file;
    var key := Key(d);
    var inRef := key in refMap;
    if inRef {
      var diffs := CompareFields(refMap[key], d);
      if |diffs| > 0 {
        differs := true;
        var diff := DifferenceText(d, diffs);
        AppendAtEnd(file, diff);
        written := WriteString(file, diff);
      } else {
        assert file.content + EntryText(refMap, d) == file.content;
      }
    } else {
      var newEntry := "New entry detected for Node: " + d.Node + ", Slot: " + d.Slot + ", Port: " + d.Port + "\n";
      newEntry := newEntry + Separator;
      AppendAtEnd(file, newEntry);
      written := WriteString(file, newEntry);
    }
  }

  /** Each report holds what it held before, followed by the blocks for `data`. */
  predicate Written(refMap: map<string, InterfaceData>, data: seq<InterfaceData>,
                    nodeFiles0: map<string, File>, nodeFiles: map<string, File>) {
    && nodeFiles.Keys == nodeFiles0.Keys
    && forall n :: n in nodeFiles ==> nodeFiles[n] == Created(nodeFiles0[n].content + Body(refMap, data, n))
  }

  lemma WrittenStep(refMap: map<string, InterfaceData>, data: seq<InterfaceData>, d: InterfaceData,
                    nodeFiles0: map<string, File>, nodeFiles: map<string, File>, written: File)
    requires Written(refMap, data, nodeFiles0, nodeFiles)
    requires d.Node in nodeFiles
    requires written == Created(nodeFiles[d.Node].content + EntryText(refMap, d))
    ensures Written(refMap, data + [d], nodeFiles0, nodeFiles[d.Node := written])
  {
    hide Body, EntryText;
    forall n | n in nodeFiles
      ensures Body(refMap, data + [d], n) == Body(refMap, data, n) + (if d.Node == n then EntryText(refMap, d) else "")
    {
      BodySnoc(refMap, data, d, n);
    }
  }

  /** The comparison loop: a block per new record in its node's report, and the count of differences. */
  method WriteEntries(refMap: map<string, InterfaceData>, newData: seq<InterfaceData>, nodeFiles0: map<string, File>)
    returns (diffCount: nat, nodeFiles: map<string, File>)
    requires NodesOf(newData) <= nodeFiles0.Keys
    requires forall n :: n in nodeFiles0 ==> nodeFiles0[n].offset == |nodeFiles0[n].content|
    ensures nodeFiles.Keys == nodeFiles0.Keys
    ensures forall n :: n in nodeFiles ==> nodeFiles[n] == Created(nodeFiles0[n].content + Body(refMap, newData, n))
    ensures diffCount == DiffCount(refMap, newData)
  {
    hide EntryText, Differs;
    diffCount := 0;
    nodeFiles := nodeFiles0;
    assert Written(refMap, newData[..0], nodeFiles0, nodeFiles) by {
      forall n | n in nodeFiles ensures nodeFiles0[n].content + Body(refMap, [], n) == nodeFiles0[n].content { }
    }
    for i := 0 to |newData|
      invariant Written(refMap, newData[..i], nodeFiles0, nodeFiles)
      invariant diffCount == DiffCount(refMap, newData[..i])
    {
      var d := newData[i];
      assert newData[..i + 1] == newData[..i] + [d];
      assert d.Node in NodesOf(newData);
      DiffCountSnoc(refMap, newData[..i], d);
      var fileExists := d.Node in nodeFiles;
      if fileExists {
        var differs, written := WriteEntry(refMap, d, nodeFiles[d.Node]);
        if differs {
          diffCount := diffCount + 1;
        }
        WrittenStep(refMap, newData[..i], d, nodeFiles0, nodeFiles, written);
        nodeFiles := nodeFiles[d.Node := written];
      }
    }
    assert newData[..|newData|] == newData;
  }

  /** One node's summary, the statuses taken in whatever order the map yields them. */
  method BuildSummary(counts: map<string, nat>) returns (summaryInfo: string, ghost order: seq<string>)
    ensures Enumerates(order, counts.Keys)
    ensures summaryInfo == SummaryText(order, counts)
  {
    hide NatToDecimal, SummaryLines;
    summaryInfo := SummaryTitle;
    order := [];
    SummaryLinesEmpty(counts);
    var remaining := counts.Keys;
    while remaining != {}
      invariant remaining <= counts.Keys
      invariant Enumerates(order, counts.Keys - remaining)
      invariant summaryInfo == SummaryTitle + SummaryLines(order, counts)
      decreases remaining
    {
      var status :| status in remaining;
      SummaryLinesSnoc(order, counts, status);
      EnumeratesStep(order, counts.Keys - remaining, status);
      summaryInfo := summaryInfo + status + ": " + NatToDecimal(counts[status]) + "\n";
      order := order + [status];
      assert counts.Keys - (remaining - {status}) == (counts.Keys - remaining) + {status};
      remaining := remaining - {status};
    }
    summaryInfo := summaryInfo + SummaryRule;
  }

  lemma SummaryLinesEmpty(counts: map<string, nat>)
    ensures SummaryLines([], counts) == ""
  {
  }

  lemma SummaryLinesSnoc(order: seq<string>, counts: map<string, nat>, s: string)
    requires forall t :: t in order ==> t in counts
    requires s in counts
    ensures SummaryLines(order + [s], counts) == SummaryLines(order, counts) + s + ": " + NatToDecimal(counts[s]) + "\n"
  {
    assert (order + [s])[..|order|] == order;
  }

  /** Listing one more key, not listed yet, keeps the listing an enumeration. */
  lemma EnumeratesStep(order: seq<string>, keys: set<string>, s: string)
    requires Enumerates(order, keys) && s !in keys
    ensures Enumerates(order + [s], keys + {s})
  {
    forall i | 0 <= i < |order| ensures order[i] != s {
      assert order[i] in order;
    }
  }

  /** A report closed with its summary written from the start. */
  ghost predicate Summarised(nodeFiles: map<string, File>, statusSummary: Tally,
                             reports: map<string, string>, orders: map<string, seq<string>>) {
    forall n :: n in reports ==>
      && n in nodeFiles && n in statusSummary && n in orders
      && Enumerates(orders[n], statusSummary[n].Keys)
      && reports[n] == WriteString(Rewound(nodeFiles[n]), SummaryText(orders[n], statusSummary[n])).content
  }

  lemma SummarisedStep(nodeFiles: map<string, File>, statusSummary: Tally,
                       reports: map<string, string>, orders: map<string, seq<string>>,
                       node: string, content: string, order: seq<string>)
    requires Summarised(nodeFiles, statusSummary, reports, orders)
    requires node in nodeFiles && node in statusSummary
    requires Enumerates(order, statusSummary[node].Keys)
    requires content == WriteString(Rewound(nodeFiles[node]), SummaryText(order, statusSummary[node])).content
    ensures Summarised(nodeFiles, statusSummary, reports[node := content], orders[node := order])
  {
  }

  /** One report: rewound, overwritten by its summary, closed. */
  method CloseReport(file: File, counts: map<string, nat>) returns (content: string, ghost order: seq<string>)
    ensures Enumerates(order, counts.Keys)
    ensures content == WriteString(Rewound(file), SummaryText(order, counts)).content
  {
    var summaryInfo;
    summaryInfo, order := BuildSummary(counts);
    var rewound := Rewound(file);
    rewound := WriteString(rewound, summaryInfo);
    content := rewound.content;
  }

  /** The last loop: each report rewound and overwritten from the start by its summary, then closed. */
  method WriteSummaries(nodeFiles: map<string, File>, statusSummary: Tally)
    returns (reports: map<string, string>, ghost orders: map<string, seq<string>>)
    requires nodeFiles.Keys <= statusSummary.Keys
    ensures reports.Keys == nodeFiles.Keys == orders.Keys
    ensures Summarised(nodeFiles, statusSummary, reports, orders)
  {
    hide WriteString, Rewound, SummaryText, Enumerates;
    reports := map[];
    orders := map[];
    var remaining := nodeFiles.Keys;
    while remaining != {}
      invariant remaining <= nodeFiles.Keys
      invariant reports.Keys == nodeFiles.Keys - remaining == orders.Keys
      invariant Summarised(nodeFiles, statusSummary, reports, orders)
      decreases remaining
    {
      var node :| node in remaining;
      var content;
      ghost var order;
      content, order := CloseReport(nodeFiles[node], statusSummary[node]);
      SummarisedStep(nodeFiles, statusSummary, reports, orders, node, content, order);
      reports := reports[node := content];
      orders := orders[node := order];
      remaining := remaining - {node};
    }
  }

  /**
   * compareData: the number of differences, and the content each node's
   * report is left with, for some order of its summary lines.
   */
  method CompareData(refData: seq<InterfaceData>, newData: seq<InterfaceData>, currentTime: string)
    returns (diffCount: nat, reports: map<string, string>, ghost orders: map<string, seq<string>>)
    ensures diffCount == DiffCount(RefMap(refData), newData)
    ensures reports.Keys == NodesOf(newData) == orders.Keys
    ensures forall n :: n in reports ==>
      && Enumerates(orders[n], TallyOf(newData)[n].Keys)
      && reports[n] == FinalReport(n, currentTime, RefMap(refData), newData, orders[n])
  {
    var nodeFiles, statusSummary := PrepareReports(newData, currentTime);
    var refMap := BuildRefMap(refData);
    diffCount, nodeFiles := WriteEntries(refMap, newData, nodeFiles);
    reports, orders := WriteSummaries(nodeFiles, statusSummary);
  }

  // ---------------------------------------------------------------------
  // Properties of the comparison

  /** diffCount never exceeds the number of new records. */
  lemma {:induction false} DiffCountBound(refMap: map<string, InterfaceData>, data: seq<InterfaceData>)
    ensures DiffCount(refMap, data) <= |data|
  {
    if data != [] {
      DiffCountBound(refMap, data[..|data| - 1]);
    }
  }

  /** A new record without a reference gets a new-entry block and leaves diffCount as it was. */
  lemma NewEntryNotCounted(refMap: map<string, InterfaceData>, data: seq<InterfaceData>, d: InterfaceData)
    requires Key(d) !in refMap
    ensures EntryText(refMap, d) == NewEntryBlock(d) && !Differs(refMap, d)
    ensures DiffCount(refMap, data + [d]) == DiffCount(refMap, data)
  {
    DiffCountSnoc(refMap, data, d);
  }

  /** diffCount adds up over consecutive runs of new records. */
  lemma {:induction false} DiffCountAppend(refMap: map<string, InterfaceData>, a: seq<InterfaceData>, b: seq<InterfaceData>)
    ensures DiffCount(refMap, a + b) == DiffCount(refMap, a) + DiffCount(refMap, b)
    decreases |b|
  {
    if b == [] {
      assert a + b == a;
    } else {
      var b' := b[..|b| - 1];
      assert (a + b)[..|a + b| - 1] == a + b';
      DiffCountAppend(refMap, a, b');
    }
  }

  /** diffCount is zero exactly when no new record differs from its reference. */
  lemma {:induction false} DiffCountZero(refMap: map<string, InterfaceData>, data: seq<InterfaceData>)
    ensures DiffCount(refMap, data) == 0 <==> forall d :: d in data ==> !Differs(refMap, d)
  {
    if data != [] {
      var init := data[..|data| - 1];
      assert data == init + [data[|data| - 1]];
      DiffCountZero(refMap, init);
    }
  }

  /** The order of the new records does not change diffCount. */
  lemma {:induction false} DiffCountPermutation(refMap: map<string, InterfaceData>, a: seq<InterfaceData>, b: seq<InterfaceData>)
    requires multiset(a) == multiset(b)
    ensures DiffCount(refMap, a) == DiffCount(refMap, b)
    decreases |b|
  {
    hide DiffCount, Differs;
    if b != [] {
      var x := b[|b| - 1];
      var b' := b[..|b| - 1];
      assert b == b' + [x];
      assert x in multiset(a);
      var i :| 0 <= i < |a| && a[i] == x;
      var a' := a[..i] + a[i + 1..];
      assert a == a[..i] + [x] + a[i + 1..];
      RemoveLast(a, b, i);
      DiffCountPermutation(refMap, a', b');
      DiffCountAppend(refMap, a[..i] + [x], a[i + 1..]);
      DiffCountAppend(refMap, a[..i], [x]);
      DiffCountAppend(refMap, a[..i], a[i + 1..]);
      DiffCountAppend(refMap, b', [x]);
    }
  }

  /** Taking the last element of `b` out of both sides keeps them permutations of each other. */
  lemma RemoveLast<T>(a: seq<T>, b: seq<T>, i: nat)
    requires multiset(a) == multiset(b) && b != []
    requires i < |a| && a[i] == b[|b| - 1]
    ensures multiset(a[..i] + a[i + 1..]) == multiset(b[..|b| - 1])
  {
    var x := b[|b| - 1];
    var a', b' := a[..i] + a[i + 1..], b[..|b| - 1];
    assert multiset(a) == multiset(a') + multiset{x} by {
      assert a == a[..i] + [x] + a[i + 1..];
      assert a' == a[..i] + a[i + 1..];
    }
    assert multiset(b) == multiset(b') + multiset{x} by {
      assert b == b' + [x];
    }
    forall y ensures multiset(a')[y] == multiset(b')[y] {
      assert multiset(a)[y] == multiset(a')[y] + multiset{x}[y];
      assert multiset(b)[y] == multiset(b')[y] + multiset{x}[y];
    }
  }

  /** Nothing is written for a node exactly when each of its new records has a reference and agrees with it. */
  lemma {:induction false} EmptyBody(refMap: map<string, InterfaceData>, data: seq<InterfaceData>, node: string)
    ensures Body(refMap, data, node) == "" <==>
      forall d :: d in data && d.Node == node ==> Key(d) in refMap && !Differs(refMap, d)
  {
    if data != [] {
      var init := data[..|data| - 1];
      var d := data[|data| - 1];
      assert data == init + [d];
      EmptyBody(refMap, init, node);
      if d.Node == node && Key(d) !in refMap {
        assert |NewEntryBlock(d)| > 0;
      }
      if d.Node == node && Differs(refMap, d) {
        assert |DifferenceBlock(d, CompareFields(refMap[Key(d)], d))| > 0;
      }
    }
  }

  /** Rewinding a written file and writing `t` leaves `t` followed by whatever of the old text lies past it. */
  lemma SummaryOverwrites(c: string, t: string)
    ensures WriteString(Rewound(Created(c)), t).content == if |t| < |c| then t + c[|t|..] else t
  {
    var g := WriteString(Rewound(Created(c)), t);
    assert g.content[..0] == [];
    if |t| < |c| {
      assert g.content == g.content[0..|t|] + g.content[|t|..];
    } else {
      assert g.content == g.content[0..|t|];
    }
  }

  /**
   * A final report begins with its summary, which starts with a line feed:
   * the "Audit Report for" header is overwritten as far as the summary
   * reaches, and whatever was written past the summary's length survives.
   */
  lemma ReportStartsWithSummary(node: string, currentTime: string, refMap: map<string, InterfaceData>,
                                newData: seq<InterfaceData>, order: seq<string>)
    requires node in TallyOf(newData)
    requires forall s :: s in order ==> s in TallyOf(newData)[node]
    ensures var r := FinalReport(node, currentTime, refMap, newData, order);
      var t := SummaryText(order, TallyOf(newData)[node]);
      var w := ReportHeader(node, currentTime) + Body(refMap, newData, node);
      && (|t| < |w| ==> r == t + w[|t|..])
      && (|w| <= |t| ==> r == t)
      && r[0] == '\n' && w[0] == 'A'
  {
    var t := SummaryText(order, TallyOf(newData)[node]);
    var w := ReportHeader(node, currentTime) + Body(refMap, newData, node);
    SummaryOverwrites(w, t);
    assert t[0] == '\n';
    assert w[0] == 'A';
  }

  /** When the header is longer than the summary, the header's tail survives right after the summary. */
  lemma HeaderTailSurvives(node: string, currentTime: string, refMap: map<string, InterfaceData>,
                           newData: seq<InterfaceData>, order: seq<string>)
    requires node in TallyOf(newData)
    requires forall s :: s in order ==> s in TallyOf(newData)[node]
    ensures var r := FinalReport(node, currentTime, refMap, newData, order);
      var t := SummaryText(order, TallyOf(newData)[node]);
      var h := ReportHeader(node, currentTime);
      |t| < |h| ==> |h| <= |r| && r[..|t|] == t && r[|t|..|h|] == h[|t|..]
  {
    hide FinalReport, SummaryText, Body, ReportHeader, TallyOf;
    ReportStartsWithSummary(node, currentTime, refMap, newData, order);
    var t := SummaryText(order, TallyOf(newData)[node]);
    var h := ReportHeader(node, currentTime);
    var w := h + Body(refMap, newData, node);
    if |t| < |h| {
      assert w[|t|..][..|h| - |t|] == h[|t|..];
    }
  }

  // ---------------------------------------------------------------------
  // CompareExcelSheets

  /** A workbook: its sheets by name, each as rows of cell texts. */
  type Workbook = map<string, seq<Row>>

  const MissingSheets := "Missing Excel sheets for comparison (reference or new sheet not found)"

  /**
   * CompareExcelSheets: compares the Baseline sheet with today's audit sheet.
   * Both present: the reference records of the audited nodes go into
   * compareData. Either missing: the error, and no report.
   */
  method CompareExcelSheets(book: Workbook, today: Date, currentTime: string)
    returns (err: Option<string>, diffCount: nat, reports: map<string, string>, ghost orders: map<string, seq<string>>)
    requires BaselineSheetName in book ==> |book[BaselineSheetName]| >= 1
    requires AuditSheetName(today) in book ==> |book[AuditSheetName(today)]| >= 1
    ensures err.Some? <==> BaselineSheetName !in book || AuditSheetName(today) !in book
    ensures err.Some? ==> err == Some(MissingSheets) && diffCount == 0 && reports == map[]
    ensures err.None? ==>
      var newData := ReadSheet.ReadAll(book[AuditSheetName(today)]);
      var refMap := RefMap(Filtered(ReadSheet.ReadAll(book[BaselineSheetName]), NodesOf(newData)));
      && diffCount == DiffCount(refMap, newData)
      && reports.Keys == NodesOf(newData) == orders.Keys
      && forall n :: n in reports ==>
        && Enumerates(orders[n], TallyOf(newData)[n].Keys)
        && reports[n] == FinalReport(n, currentTime, refMap, newData, orders[n])
  {
    diffCount := 0;
    reports := map[];
    orders := map[];
    var newSheetName := AuditSheetName(today);
    if BaselineSheetName !in book || newSheetName !in book {
      return Some(MissingSheets), diffCount, reports, orders;
    }
    // ReadExcelData never reports an error, so the two read-error returns are left out.
    var refData, _ := ReadSheet.ReadExcelData(book[BaselineSheetName]);
    var newData, _ := ReadSheet.ReadExcelData(book[newSheetName]);
    var filteredRefData := FilterData(refData, newData);
    diffCount, reports, orders := CompareData(filteredRefData, newData, currentTime);
    err := None;
  }

  // ---------------------------------------------------------------------
  // Comparing the sheets this program writes

  lemma {:induction false} FilteredAll(refData: seq<InterfaceData>, nodes: set<string>)
    requires forall d :: d in refData ==> d.Node in nodes
    ensures Filtered(refData, nodes) == refData
  {
    if refData != [] {
      var init := refData[..|refData| - 1];
      assert refData == init + [refData[|refData| - 1]];
      FilteredAll(init, nodes);
    }
  }

  lemma {:induction false} DiffCountUniform(refMap: map<string, InterfaceData>, data: seq<InterfaceData>, differs: bool)
    requires forall d :: d in data ==> Differs(refMap, d) == differs
    ensures DiffCount(refMap, data) == if differs then |data| else 0
  {
    if data != [] {
      var init := data[..|data| - 1];
      assert data == init + [data[|data| - 1]];
      DiffCountUniform(refMap, init, differs);
    }
  }

  /** The reference records read back from a Baseline sheet all carry the key "--". */
  lemma BaselineKeys(base: seq<InterfaceData>)
    ensures var refData := ReadSheet.ReadAll(CreateLayout(base));
      |refData| == |base| && forall d :: d in refData ==> d.Node == "" && Key(d) == "--"
  {
    ReadSheet.ReadBackBaseline(base);
  }

  /** The audit records read back from an audit sheet carry the key "--" and no Description or Status. */
  lemma AuditKeys(audit: seq<InterfaceData>)
    ensures var newData := ReadSheet.ReadAll(UpdateLayout(audit));
      |newData| == |audit| && forall d :: d in newData ==> d.Node == "" && Key(d) == "--" && d.Description == "" && d.Status == ""
  {
    ReadSheet.ReadBackAudit(audit);
  }

  /** Records that all share one key map to the last of them, under that key alone. */
  lemma {:induction false} OneKey(refData: seq<InterfaceData>, k: string)
    requires |refData| > 0
    requires forall d :: d in refData ==> Key(d) == k
    ensures RefMap(refData).Keys == {k}
    ensures RefMap(refData)[k] == refData[|refData| - 1]
  {
    RefMapKeys(refData);
    forall j | j in RefMap(refData) ensures j == k {
      var i :| 0 <= i < |refData| && Key(refData[i]) == j;
    }
    assert Key(refData[|refData| - 1]) == k;
  }

  /**
   * A Baseline sheet written by CreateExcel and an audit sheet written by
   * UpdateExcel read back without Node, Slot or Port, and the audit records
   * without Description or Status: every key is "--", so every audit record is
   * compared with the LAST Baseline record, and diffCount is either every
   * audit record or none.
   */
  lemma WrittenSheetsCompare(base: seq<InterfaceData>, audit: seq<InterfaceData>)
    requires |base| > 0 && |audit| > 0
    ensures var refData := ReadSheet.ReadAll(CreateLayout(base));
      var newData := ReadSheet.ReadAll(UpdateLayout(audit));
      var refMap := RefMap(Filtered(refData, NodesOf(newData)));
      var last := base[|base| - 1];
      && NodesOf(newData) == {""}
      && refMap.Keys == {"--"}
      && refMap["--"] == last.(Node := "", Slot := "", Port := "")
      && DiffCount(refMap, newData) == if last.Description != "" || last.Status != "" then |audit| else 0
  {
    hide ReadSheet.ReadRecord;
    var refData := ReadSheet.ReadAll(CreateLayout(base));
    var newData := ReadSheet.ReadAll(UpdateLayout(audit));
    BaselineKeys(base);
    AuditKeys(audit);
    assert newData[0] in newData;
    assert NodesOf(newData) == {""};
    FilteredAll(refData, {""});
    OneKey(refData, "--");
    var refMap := RefMap(refData);
    var last := base[|base| - 1];
    assert refMap["--"] == last.(Node := "", Slot := "", Port := "") by {
      ReadSheet.ReadBackBaseline(base);
    }
    DiffCountUniform(refMap, newData, last.Description != "" || last.Status != "");
  }
}
