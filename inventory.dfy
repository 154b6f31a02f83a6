/**
 * GenerateInventory: a plain device list, one device per line as
 * `host [port [platform [transport]]]`, turned into inventory entries.
 * Reading the file and writing the YAML are not modelled: the file's text
 * comes in as a string and the entries come out as a sequence.
 */
module Inventory {
  import opened Text
  import opened Records

  /**
   * getPart: the word at `index` when there is one, otherwise the default
   * for that position: "22" for the port, "ssh" for the transport, "" for
   * the rest.
   */
  function GetPart(parts: seq<string>, index: nat): (r: string)
    ensures index < |parts| && parts[index] != "" ==> r == parts[index]
    ensures !(index < |parts| && parts[index] != "") ==>
      r == (if index == 1 then "22" else if index == 3 then "ssh" else "")
  {
    if index < |parts| && parts[index] != "" then parts[index]
    else if index == 1 then "22"
    else if index == 3 then "ssh"
    else ""
  }

  /** The device one line describes, from its first four whitespace-separated words. */
  function LineToDevice(line: string): (d: Device)
    ensures d.Port != "" && d.Transport != ""
  {
    var parts := Fields(line);
    Device(GetPart(parts, 0), GetPart(parts, 1), GetPart(parts, 2), GetPart(parts, 3))
  }

  /** GenerateInventory's scanning loop: one device per line, in order. */
  method GenerateInventory(content: string) returns (devices: seq<Device>)
    ensures |devices| == |Lines(content)|
    ensures forall k :: 0 <= k < |devices| ==> devices[k] == LineToDevice(Lines(content)[k])
  {
    var lines := Lines(content);
    devices := [];
    var i := 0;
    while i < |lines|
      invariant 0 <= i <= |lines|
      invariant |devices| == i
      invariant forall k :: 0 <= k < i ==> devices[k] == LineToDevice(lines[k])
    {
      devices := devices + [LineToDevice(lines[i])];
      i := i + 1;
    }
  }

  /** A blank line still gives a device: no host, the default port and transport. */
  lemma BlankLineDevice(line: string)
    requires All(IsUnicodeSpace, line)
    ensures LineToDevice(line) == Device("", "22", "", "ssh")
  {
    FieldsOfBlank(line);
  }

  /** Words written out with single spaces come back as the device's fields; words past the fourth are ignored. */
  lemma DeviceOfWords(ws: seq<string>)
    requires |ws| >= 4
    requires forall k :: 0 <= k < |ws| ==> IsWord(ws[k])
    ensures LineToDevice(JoinWords(ws)) == Device(ws[0], ws[1], ws[2], ws[3])
  {
    FieldsOfJoin(ws);
  }

  /** A line holding just a host name gets the default port and transport. */
  lemma HostOnlyLine(host: string)
    requires IsWord(host)
    ensures LineToDevice(host) == Device(host, "22", "", "ssh")
  {
    FieldsOfJoin([host]);
  }
}
