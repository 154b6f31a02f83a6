/**
 * ProcessOutput: the output of one show command, scanned line by line, each
 * line that the command's pattern matches turned into an InterfaceData and
 * sent on a channel.
 *
 * The patterns of this package and ParseSlotAndPort are not part of this
 * model, so they come in as parameters: a Matcher stands for
 * `regex.FindStringSubmatch` followed by the loop over `SubexpNames` that
 * copies each named group into a map, and returns None when the line does
 * not match.
 */
module ProcessOutput {
  import opened Wrappers
  import opened Text
  import opened Records

  /** Named groups of one match. */
  type Groups = map<string, string>

  /** A compiled pattern applied to one line. */
  type Matcher = string -> Option<Groups>

  /** The three patterns and the slot/port splitter the parsers use. */
  datatype Patterns = Patterns(
    status: Matcher,
    description: Matcher,
    descriptionIOSXR: Matcher,
    slotAndPort: string -> (string, string))

  const ShowInterfaceStatus := "show interface status"
  const ShowInterfaceDescription := "show interface description"
  const ShowIntDescription := "show int description"

  /** `paramMap[name]` in Go: the zero value "" for a name the map lacks. */
  function Capture(groups: Groups, name: string): string {
    if name in groups then groups[name] else ""
  }

  // ---------------------------------------------------------------------
  // Status with protocol

  /**
   * The Status a description line reports: the Status group, followed by
   * " (Protocol)" when the Protocol group is not empty.
   */
  function CombinedStatus(status: string, protocol: string): (s: string)
    ensures |status| <= |s| && s[..|status|] == status
    ensures |s| == |status| <==> protocol == ""
    ensures protocol != "" ==>
      && |s| == |status| + |protocol| + 3
      && s[|status|..|status| + 2] == " (" && s[|status| + 2..|s| - 1] == protocol && s[|s| - 1] == ')'
  {
    if protocol != "" then status + " (" + protocol + ")" else status
  }

  predicate NoParen(s: string) {
    forall k :: 0 <= k < |s| ==> s[k] != '('
  }

  /**
   * When no status word contains '(', the combined Status determines both
   * groups: the protocol can be read back from the record.
   */
  lemma CombinedStatusInjective(s1: string, p1: string, s2: string, p2: string)
    requires NoParen(s1) && NoParen(s2)
    requires CombinedStatus(s1, p1) == CombinedStatus(s2, p2)
    ensures s1 == s2 && p1 == p2
  {
    var c := CombinedStatus(s1, p1);
    if p1 != "" {
      FirstParen(s1, p1);
    }
    if p2 != "" {
      FirstParen(s2, p2);
    }
    if p1 != "" && p2 != "" {
      assert |s1| == |s2|;
      assert s1 == c[..|s1|] == s2;
      assert p1 == c[|s1| + 2..|c| - 1] == p2;
    }
  }

  /** With a protocol, the first '(' of the combined Status is the one right after the status group. */
  lemma FirstParen(status: string, protocol: string)
    requires NoParen(status) && protocol != ""
    ensures var c := CombinedStatus(status, protocol);
      c[|status| + 1] == '(' && forall k :: 0 <= k <= |status| ==> c[k] != '('
  {
    var c := CombinedStatus(status, protocol);
    forall k | 0 <= k <= |status| ensures c[k] != '(' {
      if k < |status| {
        assert c[k] == c[..|status|][k];
      } else {
        assert c[k] == c[|status|..|status| + 2][0];
      }
    }
  }

  // ---------------------------------------------------------------------
  // One line

  /**
   * parseInterfaceStatus: a record when the line matches, every text field
   * copied from the group of the same name, Slot and Port split from the
   * Interface group.
   */
  function ParseStatusLine(line: string, pattern: Matcher, slotAndPort: string -> (string, string), device: Device)
    : (r: Option<InterfaceData>)
    ensures r.None? <==> pattern(line).None?
    ensures r.Some? ==>
      var g := pattern(line).value;
      && r.value.Node == device.Host
      && r.value.Interface == Capture(g, "Interface")
      && (r.value.Slot, r.value.Port) == slotAndPort(r.value.Interface)
      && r.value.Description == Capture(g, "Description")
      && r.value.Status == Capture(g, "Status")
      && r.value.VLAN == Capture(g, "VLAN")
      && r.value.Duplex == Capture(g, "Duplex")
      && r.value.Speed == Capture(g, "Speed")
      && r.value.Type == Capture(g, "Type")
  {
    match pattern(line)
    case None => None
    case Some(g) =>
      var iface := Capture(g, "Interface");
      var (slot, port) := slotAndPort(iface);
      Some(InterfaceData(device.Host, iface, slot, port, Capture(g, "Description"), Capture(g, "Status"),
        Capture(g, "VLAN"), Capture(g, "Duplex"), Capture(g, "Speed"), Capture(g, "Type")))
  }

  /**
   * parseInterfaceDescription and parseInterfaceDescriptionIOSXR, which do
   * the same with different patterns: Status carries the protocol in
   * parentheses, and the columns the command does not print stay empty.
   */
  function ParseDescriptionLine(line: string, pattern: Matcher, slotAndPort: string -> (string, string), device: Device)
    : (r: Option<InterfaceData>)
    ensures r.None? <==> pattern(line).None?
    ensures r.Some? ==>
      var g := pattern(line).value;
      && r.value.Node == device.Host
      && r.value.Interface == Capture(g, "Interface")
      && (r.value.Slot, r.value.Port) == slotAndPort(r.value.Interface)
      && r.value.Description == Capture(g, "Description")
      && r.value.Status == CombinedStatus(Capture(g, "Status"), Capture(g, "Protocol"))
      && r.value.VLAN == "" && r.value.Duplex == "" && r.value.Speed == "" && r.value.Type == ""
  {
    match pattern(line)
    case None => None
    case Some(g) =>
      var iface := Capture(g, "Interface");
      var (slot, port) := slotAndPort(iface);
      var status := CombinedStatus(Capture(g, "Status"), Capture(g, "Protocol"));
      Some(InterfaceData(device.Host, iface, slot, port, Capture(g, "Description"), status, "", "", "", ""))
  }

  /** The switch in the scanning loop: which parser, with which pattern, a command selects. */
  function ParseLine(command: string, line: string, pats: Patterns, device: Device): (r: Option<InterfaceData>)
    ensures r.Some? ==> r.value.Node == device.Host
    ensures r.Some? ==> command in {ShowInterfaceStatus, ShowInterfaceDescription, ShowIntDescription}
  {
    if command == ShowInterfaceStatus then ParseStatusLine(line, pats.status, pats.slotAndPort, device)
    else if command == ShowInterfaceDescription then ParseDescriptionLine(line, pats.description, pats.slotAndPort, device)
    else if command == ShowIntDescription then ParseDescriptionLine(line, pats.descriptionIOSXR, pats.slotAndPort, device)
    else None
  }

  /** The records the scan sends for `lines`, in order, at most one per line. */
  function ParseLines(command: string, lines: seq<string>, pats: Patterns, device: Device): seq<InterfaceData>
  {
    if lines == [] then []
    else
      var rest := ParseLines(command, lines[..|lines| - 1], pats, device);
      match ParseLine(command, lines[|lines| - 1], pats, device)
      case None => rest
      case Some(d) => rest + [d]
  }

  // ---------------------------------------------------------------------
  // The scanning loop

  /** The receiving end of `dataChan`: everything sent so far, in order. */
  class Channel {
    var sent: seq<InterfaceData>

    constructor()
      ensures sent == []
    {
      sent := [];
    }

    method Send(d: InterfaceData)
      modifies this
      ensures sent == old(sent) + [d]
    {
      sent := sent + [d];
    }
  }

  /** ProcessOutput: scans `output` and sends one record per matching line. */
  method Process(output: string, command: string, device: Device, pats: Patterns, dataChan: Channel)
    modifies dataChan
    ensures dataChan.sent == old(dataChan.sent) + ParseLines(command, Lines(output), pats, device)
  {
    hide ParseLine, Lines;
    var lines := Lines(output);
    var i := 0;
    while i < |lines|
      invariant 0 <= i <= |lines|
      invariant dataChan.sent == old(dataChan.sent) + ParseLines(command, lines[..i], pats, device)
    {
      assert lines[..i + 1][..i] == lines[..i];
      var data := ParseLine(command, lines[i], pats, device);
      if data.Some? {
        dataChan.Send(data.value);
      }
      i := i + 1;
    }
    assert lines[..i] == lines;
  }

  // ---------------------------------------------------------------------
  // Properties of the scan

  /** Scanning two pieces one after the other sends what scanning them together does. */
  lemma {:induction false} ParseLinesAppend(command: string, a: seq<string>, b: seq<string>, pats: Patterns, device: Device)
    ensures ParseLines(command, a + b, pats, device)
      == ParseLines(command, a, pats, device) + ParseLines(command, b, pats, device)
    decreases |b|
  {
    if b != [] {
      var b' := b[..|b| - 1];
      assert (a + b)[..|a + b| - 1] == a + b';
      assert (a + b)[|a + b| - 1] == b[|b| - 1];
      ParseLinesAppend(command, a, b', pats, device);
      match ParseLine(command, b[|b| - 1], pats, device)
      case None =>
      case Some(d) =>
        calc {
          ParseLines(command, a + b, pats, device);
          ParseLines(command, a + b', pats, device) + [d];
          ParseLines(command, a, pats, device) + ParseLines(command, b', pats, device) + [d];
        }
    } else {
      assert a + b == a;
    }
  }

  /** At most one record per line. */
  lemma {:induction false} ParseLinesBound(command: string, lines: seq<string>, pats: Patterns, device: Device)
    ensures |ParseLines(command, lines, pats, device)| <= |lines|
    decreases |lines|
  {
    if lines != [] {
      ParseLinesBound(command, lines[..|lines| - 1], pats, device);
    }
  }

  /** Every record sent is the parse of one of the lines, and carries the device's host as its Node. */
  lemma {:induction false} ParseLinesFromLines(command: string, lines: seq<string>, pats: Patterns, device: Device)
    ensures forall d :: d in ParseLines(command, lines, pats, device) ==>
      d.Node == device.Host && exists k :: 0 <= k < |lines| && ParseLine(command, lines[k], pats, device) == Some(d)
    decreases |lines|
  {
    if lines != [] {
      var init := lines[..|lines| - 1];
      ParseLinesFromLines(command, init, pats, device);
      forall k | 0 <= k < |init| ensures init[k] == lines[k] { }
    }
  }

  /** A line the pattern matches is never dropped: when all match, every line gives a record. */
  lemma {:induction false} ParseLinesAllMatch(command: string, lines: seq<string>, pats: Patterns, device: Device)
    requires forall k :: 0 <= k < |lines| ==> ParseLine(command, lines[k], pats, device).Some?
    ensures |ParseLines(command, lines, pats, device)| == |lines|
    ensures forall k :: 0 <= k < |lines| ==>
      ParseLines(command, lines, pats, device)[k] == ParseLine(command, lines[k], pats, device).value
    decreases |lines|
  {
    if lines != [] {
      var init := lines[..|lines| - 1];
      assert forall k :: 0 <= k < |init| ==> init[k] == lines[k];
      ParseLinesAllMatch(command, init, pats, device);
    }
  }

  /** A command other than the three known ones sends nothing, whatever the output. */
  lemma {:induction false} UnknownCommandSendsNothing(command: string, lines: seq<string>, pats: Patterns, device: Device)
    requires command !in {ShowInterfaceStatus, ShowInterfaceDescription, ShowIntDescription}
    ensures ParseLines(command, lines, pats, device) == []
    decreases |lines|
  {
    if lines != [] {
      UnknownCommandSendsNothing(command, lines[..|lines| - 1], pats, device);
    }
  }

  /** Lines the pattern rejects are skipped: they add nothing to what is sent. */
  lemma UnmatchedLineSkipped(command: string, before: seq<string>, line: string, after: seq<string>, pats: Patterns, device: Device)
    requires ParseLine(command, line, pats, device).None?
    ensures ParseLines(command, before + [line] + after, pats, device)
      == ParseLines(command, before + after, pats, device)
  {
    ParseLinesAppend(command, before + [line], after, pats, device);
    ParseLinesAppend(command, before, after, pats, device);
    assert (before + [line])[..|before|] == before;
  }

  /**
   * The scan of a text built from lines (each ended by "\n", none holding
   * '\n' or ending in '\r') sends the parse of exactly those lines.
   */
  lemma ProcessTerminatedOutput(command: string, ls: seq<string>, pats: Patterns, device: Device)
    requires forall k :: 0 <= k < |ls| ==> PlainLine(ls[k])
    ensures ParseLines(command, Lines(Terminated(ls)), pats, device) == ParseLines(command, ls, pats, device)
    ensures |ParseLines(command, Lines(Terminated(ls)), pats, device)| <= |ls|
  {
    LinesOfTerminated(ls);
    ParseLinesBound(command, ls, pats, device);
  }

  /** Both description commands build the same record from the same groups. */
  lemma DescriptionCommandsAgree(line: string, pats: Patterns, device: Device)
    requires pats.description(line) == pats.descriptionIOSXR(line)
    ensures ParseLine(ShowInterfaceDescription, line, pats, device) == ParseLine(ShowIntDescription, line, pats, device)
  {
  }

  /** The description commands never fill VLAN, Duplex, Speed or Type. */
  lemma DescriptionRecordsShape(command: string, lines: seq<string>, pats: Patterns, device: Device)
    requires command == ShowInterfaceDescription || command == ShowIntDescription
    ensures forall d :: d in ParseLines(command, lines, pats, device) ==>
      d.VLAN == "" && d.Duplex == "" && d.Speed == "" && d.Type == ""
  {
    ParseLinesFromLines(command, lines, pats, device);
  }
}
