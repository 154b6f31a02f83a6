# port-audit in Dafny

A model of the record-handling core of port-audit, a tool that audits the
ports of Cisco switches. The tool runs `show interface …` commands over SSH,
turns each output line into an interface record, and writes the records to
an Excel workbook: a "Baseline" sheet first, then one "Audit DDMMYYYY" sheet
per run. It then compares the audit sheet with the Baseline and writes one
text report per switch.

The model covers the parts that turn text and rows into records and compare
two record sets:

- `split_interface.dfy`: `SplitInterfaceData`, the leftmost match of
  `\D+(\d+)/(\d+)` written out by hand. It is proved sound, leftmost, and
  greedy in the port.
- `description_pattern.dfy` and `status_pattern.dfy`: the two
  `show interface` line patterns of the older command, as recognisers. Each
  is proved against a relation that lists every way the pattern can match
  a line. Characters are classified as RE2 classifies them: `\s` is
  `[\t\n\f\r ]`, `\d` is `[0-9]`, and `.` is anything but a line feed.
- `process_output.dfy`: `ProcessOutput` and the three `parse*` functions.
  - The regular expressions and `ParseSlotAndPort` are parameters. A pattern
    is a function from a line to an optional map of named groups.
  - The output channel is a class whose `sent` sequence grows by one record
    per send.
- `records.dfy`, `sheets.dfy`, `dates.dfy`: the records, and the row layouts
  and sheet names that `CreateExcel` and `UpdateExcel` write. A sheet is a
  class with a name and a `seq<seq<string>>` of rows, filled by
  `AddRow`/`AddCell`.
- `read_sheet.dfy` and `legacy_read_sheet.dfy`: the two `ReadExcelData`
  readers.
  - The current reader looks cells up by the mapped struct field name
    ("Node", "Slot", …), not by the header text.
  - As a result, Node, Slot and Port always come back empty from the
    sheets this program writes. `ReadBackBaseline` and `ReadBackAudit` state
    exactly what survives.
- `compare_sheets.dfy`: `FilterData`, `compareFields`, `compareData` and the
  missing-sheet check of `CompareExcelSheets`.
  - A report file is a value `File(content, offset)`. `WriteString`
    overwrites from the offset on, as an `os.File` does.
  - The summary is written after a seek to offset 0, so it overwrites the
    start of the report instead of being prepended.
  - Go's map iteration order is an arbitrary choice (`:|`). A ghost output
    records the order taken.
  - `WrittenSheetsCompare` follows the whole comparison on sheets this
    program wrote. Every key is "--", so every audit record is compared with
    the last Baseline record.
- `inventory.dfy` and `flags.dfy`: `getPart`, the per-line `Device` of
  `GenerateInventory`, and the flag validation of both `SetupFlags`
  versions.
- `text.dfy`: shared text functions.
  - Character classes.
  - `Lines`, the line splitting of `bufio.Scanner`: split at '\n', one
    trailing '\r' dropped, no empty last line.
  - `Fields`, the splitting of `strings.Fields`, on the white space of
    `unicode.IsSpace`, non-ASCII included.
  - Decimal rendering, as in `%d`.

The clock is a parameter throughout. `UpdateExcel` and `CompareExcelSheets`
take the date as a `Date`; `compareData` takes the time stamp as a string.

## Model

| member | source | states |
|---|---|---|
| SplitInterface.SplitInterfaceData | internal/SplitInterfaceData.go:9-18 | on failure the result is ("", "", "invalid interface format"); on success slot and port are non-empty digit strings |
| SplitInterface.SplitIsLeftmostMatch | internal/SplitInterfaceData.go:10-17 | when any match exists the split succeeds, and slot and port are the groups of a match starting no later than any other; at that start the slot is the same and the port is the longest |
| SplitInterface.SplitFailsOnlyWithoutMatch | internal/SplitInterfaceData.go:11-14 | the error is returned exactly when no substring matches `\D+(\d+)/(\d+)` |
| SplitInterface.SplitSucceedsOnMatch | internal/SplitInterfaceData.go:11-17 | any match anywhere makes the split succeed |
| SplitInterface.SplitComposed | internal/SplitInterfaceData.go:10-17 | a non-empty digit-free prefix, digits a, '/', digits b splits back into (a, b) |
| SplitInterface.SplitThreeLevelName | internal/SplitInterfaceData.go:10-16 | "Gi1/0/3" gives slot "1" and port "0": only the first digits/digits group counts |
| SplitInterface.SplitNeedsPrefix | internal/SplitInterfaceData.go:10-14 | "1/2", with no non-digit before the slot, is an error |
| SplitInterface.SplitNeedsSlash | internal/SplitInterfaceData.go:10-14 | "mgmt0", without a slash, is an error |
| SplitInterface.MatchAtComplete | internal/SplitInterfaceData.go:10 | every match at a start agrees with the one found there on the slot and has a port no longer |
| SplitInterface.FindFromLeftmost | internal/SplitInterfaceData.go:11 | the search finds a match starting at or before any match that exists |
| DescriptionPattern.ShowIntDescription | subFunctions/ShowInterfaceDescriptionRegex.go:12 | on a match Interface is the first run of non-space characters, Status is "admin down", "down" or "up", Protocol is "down" or "up", and Description holds no line feed |
| DescriptionPattern.RecogniseSound | subFunctions/ShowInterfaceDescriptionRegex.go:12 | what the recogniser returns is a way the pattern matches, with the whole first token as Interface and the white space after Protocol taken in full |
| DescriptionPattern.RecogniseComplete | subFunctions/ShowInterfaceDescriptionRegex.go:12 | whenever the pattern can match a line, the recogniser finds the same Interface, Status, gaps and Protocol, and takes at least as much white space after Protocol |
| DescriptionPattern.CapturesDetermined | subFunctions/ShowInterfaceDescriptionRegex.go:12 | any match fixes Interface, Status and Protocol; Description is the rest of the line after the white space that follows Protocol |
| DescriptionPattern.LeadingSpaceNeverMatches | subFunctions/ShowInterfaceDescriptionRegex.go:12 | a line starting with white space never matches |
| DescriptionPattern.ComposedLineParses | subFunctions/ShowInterfaceDescriptionRegex.go:12 | a line assembled from valid parts parses back into exactly those parts |
| DescriptionPattern.HeaderLineDoesNotMatch | subFunctions/ShowInterfaceDescriptionRegex.go:12 | the header line "Interface Status Protocol Description" does not match |
| DescriptionPattern.MissingProtocolDoesNotMatch | subFunctions/ShowInterfaceDescriptionRegex.go:12 | "Gi0/1 up", with no protocol word, does not match |
| DescriptionPattern.AdminDownLine | subFunctions/ShowInterfaceDescriptionRegex.go:12 | "admin down" is taken as one status word, before "down" |
| DescriptionPattern.EmptyDescriptionLine | subFunctions/ShowInterfaceDescriptionRegex.go:12 | trailing white space after the protocol gives an empty Description |
| StatusPattern.ShowIntStatusGroups | subFunctions/ShowInterfaceStatusRegex.go:29-37 | on a match Interface is a prefix of the line, Status and Duplex come from their word lists, VLAN is a non-empty digit string, Speed is non-empty without white space, and Description and Type hold no line feed |
| StatusPattern.FindMatchSound | subFunctions/ShowInterfaceStatusRegex.go:29-37 | the match found satisfies the pattern, and the white space before Type is taken in full |
| StatusPattern.FindMatchPreferred | subFunctions/ShowInterfaceStatusRegex.go:30-36 | whenever any match exists, the one found comes first in RE2's order: longest first gap, then shortest Description, then longest gap before Type |
| StatusPattern.ShowIntStatusAgainstMatch | subFunctions/ShowInterfaceStatusRegex.go:31 | any match gives the same Interface; among matches that take the whole first gap, Description is the shortest |
| StatusPattern.OneWordDescription | subFunctions/ShowInterfaceStatusRegex.go:31 | a match with a one-word Description and Type starting at a non-space is the one reported |
| StatusPattern.SlashAfterNameNeverMatches | subFunctions/ShowInterfaceStatusRegex.go:30 | a name with a third "/" level never matches |
| StatusPattern.ThreeLevelRow | subFunctions/ShowInterfaceStatusRegex.go:30 | "Gi1/0/1 lan up 1 full auto 1G" does not match |
| StatusPattern.UpRow | subFunctions/ShowInterfaceStatusRegex.go:29-37 | a typical row yields its seven columns as the seven groups |
| ProcessOutput.CombinedStatus | internal/ProcessOutput.go:109-112 | Status is kept as the prefix; " (" + protocol + ")" is appended exactly when the protocol is non-empty |
| ProcessOutput.CombinedStatusInjective | internal/ProcessOutput.go:139-142 | for statuses without '(', the combined Status determines status and protocol |
| ProcessOutput.ParseStatusLine | internal/ProcessOutput.go:65-91 | no record exactly when the pattern does not match; otherwise Node is the host, Slot and Port come from the slot/port function of the Interface group, the other fields are copied from their groups, and a missing group gives "" |
| ProcessOutput.ParseDescriptionLine | internal/ProcessOutput.go:94-124 | no record exactly when the pattern does not match; otherwise Status is the combined status and protocol, and VLAN, Duplex, Speed and Type are empty |
| ProcessOutput.ParseLine | internal/ProcessOutput.go:33-40 | a record is produced only for the three known commands, always with the device host as Node |
| ProcessOutput.Process | internal/ProcessOutput.go:28-46 | the channel receives exactly the parsed records of the output lines, in line order |
| ProcessOutput.ParseLinesAppend | internal/ProcessOutput.go:30-45 | the records of two runs of lines are those of each run in turn |
| ProcessOutput.ParseLinesBound | internal/ProcessOutput.go:30-45 | at most one record per line |
| ProcessOutput.ParseLinesFromLines | internal/ProcessOutput.go:30-45 | every record sent is the parse of some line, with the host as Node |
| ProcessOutput.ParseLinesAllMatch | internal/ProcessOutput.go:30-45 | when every line parses, there is one record per line, in order |
| ProcessOutput.UnknownCommandSendsNothing | internal/ProcessOutput.go:33-40 | any other command string sends nothing |
| ProcessOutput.UnmatchedLineSkipped | internal/ProcessOutput.go:41-45 | a line that does not parse is skipped without any other effect |
| ProcessOutput.ProcessTerminatedOutput | internal/ProcessOutput.go:29-31 | output made of lines each ended by a line feed is scanned back into those lines |
| ProcessOutput.DescriptionCommandsAgree | internal/ProcessOutput.go:36-39 | the two description commands differ only in the pattern they use |
| ProcessOutput.DescriptionRecordsShape | internal/ProcessOutput.go:114-123 | records from the description commands leave VLAN, Duplex, Speed and Type empty |
| Text.LinesShape | internal/ProcessOutput.go:29-31 | scanned lines contain no line feed, and there are never more lines than characters |
| Text.LinesOfTerminated | internal/GenerateInventoryFile.go:21-22 | text made of lines each ended by a line feed scans back into those lines |
| Text.FieldsAreWords | internal/GenerateInventoryFile.go:23 | every field is a non-empty run of non-space characters |
| Text.FieldsOfJoin | internal/GenerateInventoryFile.go:23 | words joined by single spaces split back into those words |
| Text.FieldsOfBlank | internal/GenerateInventoryFile.go:23 | a line has no fields exactly when it is all white space |
| Text.DecimalRoundTrip | internal/CompareExcelSheets.go:123 | the decimal text of a count reads back as that count |
| Inventory.GetPart | internal/GenerateInventoryFile.go:47-59 | a present, non-empty part is returned; otherwise "22" at index 1, "ssh" at index 3 and "" elsewhere |
| Inventory.LineToDevice | internal/GenerateInventoryFile.go:23-29 | Port and Transport are never empty |
| Inventory.GenerateInventory | internal/GenerateInventoryFile.go:20-31 | one device per scanned line, blank lines included, in order |
| Inventory.BlankLineDevice | internal/GenerateInventoryFile.go:23-30 | a blank line yields host "", port "22", platform "", transport "ssh" |
| Inventory.DeviceOfWords | internal/GenerateInventoryFile.go:23-29 | a line of four or more words gives the first four as Host, Port, Platform, Transport; the rest are ignored |
| Inventory.HostOnlyLine | internal/GenerateInventoryFile.go:24-29 | a line holding only a host name gets the default port and transport |
| Flags.ValidateFlags | internal/SetupFlags.go:40-53 | no error exactly when username, password and file are all given; otherwise the username error comes first, then the password error, then the file error |
| Flags.SetupFlags | internal/SetupFlags.go:29-36 | with -gen and a file, no validation and no error; otherwise the validation's result |
| Flags.LegacySetupFlags | subFunctions/SetupFlags.go:26-46 | validation always runs: no error exactly when all three values are given |
| Flags.SetupFlagsAcceptsMore | internal/SetupFlags.go:29-36 | the newer setup accepts everything the older one does, plus exactly -gen with a file; where both fail, they fail alike |
| Dates.DDMMYYYY | internal/UpdateExcel.go:20 | the stamp is all digits, eight of them for a valid date |
| Dates.StampRoundTrip | internal/UpdateExcel.go:20 | day, month and year read back from their two, two and four digits |
| Dates.AuditSheetName | internal/UpdateExcel.go:21 | the sheet name starts with "Audit " |
| Dates.AuditSheetNameInjective | internal/UpdateExcel.go:20-21 | different valid dates give different audit sheet names |
| Sheets.Sheet.AddRowOf | internal/CreateExcel.go:42-52 | adding a row cell by cell appends exactly that row |
| Sheets.CreateRow | internal/CreateExcel.go:43-52 | a Baseline row has one cell per header |
| Sheets.UpdateRow | internal/UpdateExcel.go:40-54 | an audit row has one cell per header, and its last cell, the description, is never empty |
| Sheets.ShownDescription | internal/UpdateExcel.go:50-53 | an empty description is written as "Unallocated"; any other is written as is |
| Sheets.CreateLayout | internal/CreateExcel.go:32-53 | the header row first, then one row per record in order |
| Sheets.UpdateLayout | internal/UpdateExcel.go:30-55 | the header row first, then one row per record in order |
| Sheets.CreateExcel | internal/CreateExcel.go:20-53 | a new sheet named "Baseline" holding the Baseline layout of the records |
| Sheets.UpdateExcel | internal/UpdateExcel.go:20-55 | a new sheet named "Audit " plus the date stamp, holding the audit layout of the records |
| Sheets.LayoutsDiffer | internal/UpdateExcel.go:40-54 | the two layouts agree on the first four columns and differ at the fifth, Description against Type |
| Sheets.UpdateRowKeepsFields | internal/UpdateExcel.go:40-54 | an audit row determines its record, except that "" and "Unallocated" descriptions look alike |
| ReadSheet.HeaderIndexSound | internal/ReadExcelData.go:11-13 | the header map holds exactly the header texts, each mapped to its last column |
| ReadSheet.GetCellValue | internal/ReadExcelData.go:48-53 | the cell at the mapped column, or "" when the header is missing or the row is too short |
| ReadSheet.ReadAll | internal/ReadExcelData.go:29-43 | one record per row after the header |
| ReadSheet.ReadExcelData | internal/ReadExcelData.go:6-45 | the records of the rows after the header, in order, and never an error |
| ReadSheet.ReadsFieldNames | internal/ReadExcelData.go:29-40 | each field is looked up under its own struct field name ("Node", "Slot", ...), which is what the header mapping yields, not under its header text |
| ReadSheet.LookupNames | internal/ReadExcelData.go:16-27 | each header text maps to the struct field name the reader then looks up |
| ReadSheet.FieldNeedsItsName | internal/ReadExcelData.go:30-40 | Node, Slot, Port, Status or Description is non-empty only if the header row holds that field name itself |
| ReadSheet.FieldReadFromItsColumn | internal/ReadExcelData.go:32 | Interface is read from the last column headed "Interface" |
| ReadSheet.BaselineHeaderIndex | internal/CreateExcel.go:32 | on the Baseline header row, "Node", "Slot" and "Port" are not found; the other fields are found at their columns |
| ReadSheet.AuditHeaderIndex | internal/UpdateExcel.go:30 | on the audit header row only "Interface", "VLAN" and "Duplex" are found |
| ReadSheet.ReadBackBaseline | internal/ReadExcelData.go:29-43 | reading a Baseline sheet back gives the records with Node, Slot and Port emptied |
| ReadSheet.ReadBackAudit | internal/ReadExcelData.go:29-43 | reading an audit sheet back keeps only Interface, VLAN and Duplex |
| LegacyReadSheet.LegacyReadExcelData | subFunctions/ReadExcelData.go:16-35 | the header row is skipped, rows with fewer than eight cells are skipped, and the rest are read in order; never an error |
| LegacyReadSheet.KeepLongAppend | subFunctions/ReadExcelData.go:18-33 | the records of two runs of rows are those of each run in turn |
| LegacyReadSheet.KeepLongExact | subFunctions/ReadExcelData.go:18-33 | never more records than rows; when every row has eight cells, one record per row, columns 0 to 7 in order |
| LegacyReadSheet.ShortRowSkipped | subFunctions/ReadExcelData.go:19-21 | a row with fewer than eight cells contributes nothing |
| LegacyReadSheet.ExtraCellsIgnored | subFunctions/ReadExcelData.go:22-31 | cells past the eighth are ignored |
| LegacyReadSheet.HeaderRowIgnored | subFunctions/ReadExcelData.go:18 | the first row never matters |
| CompareSheets.FilterData | internal/CompareExcelSheets.go:13-27 | the reference records whose node occurs in the new data, in their order |
| CompareSheets.FilteredExact | internal/CompareExcelSheets.go:19-24 | a record is kept exactly when it is a reference record of a node in the new data |
| CompareSheets.FilteredAppend | internal/CompareExcelSheets.go:20-24 | filtering keeps the order of the reference records |
| CompareSheets.CompareFields | internal/CompareExcelSheets.go:136-163 | at most two lines; empty exactly when Description and Status agree; the Description line first, the Status line last |
| CompareSheets.CompareFieldsOnlyTwoFields | internal/CompareExcelSheets.go:136-163 | no field other than Description and Status affects the comparison |
| CompareSheets.KeyCollides | internal/CompareExcelSheets.go:90 | two different records can share a key when a field contains '-' |
| CompareSheets.KeyInjective | internal/CompareExcelSheets.go:90 | with no '-' in Node and Slot, the key determines Node, Slot and Port |
| CompareSheets.RefMapKeys | internal/CompareExcelSheets.go:88-92 | the reference map holds exactly the keys of the reference records |
| CompareSheets.RefMapLastWins | internal/CompareExcelSheets.go:88-92 | under each key, the last reference record with that key |
| CompareSheets.BuildRefMap | internal/CompareExcelSheets.go:88-92 | the loop builds the reference map |
| CompareSheets.TallyOf | internal/CompareExcelSheets.go:71-85 | the tally has an entry for exactly the nodes of the new data |
| CompareSheets.TallyCounts | internal/CompareExcelSheets.go:79-84 | for each node, a status is listed exactly when some record has it, with the number of such records |
| CompareSheets.TalliedAt | internal/CompareExcelSheets.go:79-84 | counting one record adds one to its node's entry for its status, starting from zero, and leaves every other entry as it was |
| CompareSheets.WriteString | internal/CompareExcelSheets.go:126-127 | a write keeps the text before the offset, puts the string at the offset, keeps the text past it, and moves the offset past the string |
| CompareSheets.AppendAtEnd | internal/CompareExcelSheets.go:110 | a write at the end of a file appends |
| CompareSheets.PrepareReports | internal/CompareExcelSheets.go:71-85 | one report per node of the new data, each holding only "Audit Report for <node> generated on: <time>\n", and the status tally |
| CompareSheets.DifferenceText | internal/CompareExcelSheets.go:105-109 | the heading line, one line per difference, then the separator |
| CompareSheets.WriteEntry | internal/CompareExcelSheets.go:97-116 | a record without a reference appends a new-entry block; a differing record appends a difference block and counts; an equal record appends nothing |
| CompareSheets.WriteEntries | internal/CompareExcelSheets.go:94-117 | each report gets, in order, the blocks of its node's records, and diffCount is the number of records that differ from their reference |
| CompareSheets.BuildSummary | internal/CompareExcelSheets.go:121-125 | the title, one "status: count" line per status in some order that lists each status once, then the rule |
| CompareSheets.CloseReport | internal/CompareExcelSheets.go:121-128 | the report rewound and overwritten from the start by its summary |
| CompareSheets.WriteSummaries | internal/CompareExcelSheets.go:119-130 | every report is closed with its node's summary |
| CompareSheets.CompareData | internal/CompareExcelSheets.go:65-133 | diffCount counts the new records that differ from the last reference record with their key; each node's report is its header and blocks, overwritten from the start by its summary |
| CompareSheets.DiffCountBound | internal/CompareExcelSheets.go:95-111 | diffCount is at most the number of new records |
| CompareSheets.NewEntryNotCounted | internal/CompareExcelSheets.go:112-116 | a record without a reference gets a new-entry block, never a difference block, and leaves diffCount unchanged |
| CompareSheets.DiffCountAppend | internal/CompareExcelSheets.go:96-117 | diffCount adds up over runs of new records |
| CompareSheets.DiffCountZero | internal/CompareExcelSheets.go:101-111 | diffCount is zero exactly when no new record differs from its reference |
| CompareSheets.DiffCountPermutation | internal/CompareExcelSheets.go:96-117 | reordering the new records does not change diffCount |
| CompareSheets.EmptyBody | internal/CompareExcelSheets.go:96-117 | a report gets no block exactly when every record of its node has a reference and agrees with it |
| CompareSheets.SummaryOverwrites | internal/CompareExcelSheets.go:126-127 | after the seek, the summary replaces the first characters of the report, and whatever lies past it stays |
| CompareSheets.ReportStartsWithSummary | internal/CompareExcelSheets.go:119-128 | a final report starts with the summary's line feed, not with "Audit Report"; the header is overwritten as far as the summary reaches, and what was written past the summary's length survives |
| CompareSheets.HeaderTailSurvives | internal/CompareExcelSheets.go:119-128 | when the header is longer than the summary, the report starts with the summary and then the rest of the header |
| CompareSheets.CompareExcelSheets | internal/CompareExcelSheets.go:37-58 | a missing Baseline or audit sheet gives the missing-sheets error and no report; otherwise the comparison of the filtered Baseline records with the audit records |
| CompareSheets.WrittenSheetsCompare | internal/CompareExcelSheets.go:46-58 | on sheets this program wrote, every key is "--" and each audit record is compared with the last Baseline record, so diffCount is every audit record or none |

## Left out

- Network and SSH: connecting to devices and running commands are not
  modelled. The command output comes in as a string.
- Concurrency: the worker pool, the channel's synchronisation and the
  aggregation goroutine are not modelled. The channel is a sequence that
  `Send` appends to.
- The spreadsheet library, YAML, zip archives and the file system are not
  modelled:
  - opening and saving workbooks;
  - writing `inventory.yml`;
  - zipping and deleting files;
  - creating, naming and closing report files. Reports are keyed by node,
    and the time in the file name is not modelled.
- `ParseSlotAndPort`, and the pattern variables of `internal/ProcessOutput.go`,
  are not part of this model. They are parameters of `Process`.
- The loop over `SubexpNames` is folded into the pattern parameter, which
  returns the named groups directly. A name the pattern lacks reads as "".
- `bufio.Scanner`'s 64 KB line limit, and the read error it may report, are
  not modelled.
- `flag.Parse` and the global flag state are not modelled. `SetupFlags`
  takes the parsed values.
- Failures that end the program are not modelled: `AddSheet` with a name
  already in use, `os.Create` failing, and `log.Fatalf`.
- CompareSheets.CompareExcelSheets requires a sheet, when present, to have a
  header row, because Go indexes `Rows[0]` unconditionally.
- ReadSheet.ReadExcelData requires at least one row, because Go indexes
  `Rows[0]` unconditionally and fails on a sheet without rows.
- LegacyReadSheet.LegacyReadExcelData requires at least one row, because Go
  slices `Rows[1:]` unconditionally and fails on a sheet without rows.
- CompareSheets.WriteString counts offsets in characters, while `os.File`
  counts UTF-8 bytes. The two agree only when the report text is ASCII. With
  non-ASCII text before the end of the summary, Go keeps a different tail,
  and it can even cut a multi-byte character in two; the model cannot
  represent that.
- CompareSheets.SummaryOverwrites and CompareSheets.CompareData inherit this:
  the overwritten prefix is measured in characters, so their results match
  Go only for ASCII reports.
- CompareSheets.CompareExcelSheets has no branches for "Failed to read"
  errors, because `ReadExcelData` never returns one.
- CompareSheets.WriteEntries: the two Go branches guarded by `fileExists`
  are checked once, before the reference lookup. Every node of the new data
  has a report, so the check always holds.
- Sheets.CreateExcel and Sheets.UpdateExcel fill each data row through
  `AddRowOf`, one `AddCell` per value, instead of ten separate `AddCell`
  calls.
- StatusPattern.ShowIntStatusAgainstMatch: Description is proved shortest
  only among the matches that take the whole white-space run after the
  interface name. RE2 takes that run first.
- `internal/ShowInterfaceRegex.go`, the usage guides and the interactive
  menu are not modelled.
