/**
 * The records the audit pipeline passes around: one switch interface as
 * observed at one time, and one inventory entry. Field names follow the Go
 * structs so that the spreadsheet header lookups (which use these very names)
 * read the same here.
 */
module Records {

  /** internal.InterfaceData: one interface of one node. */
  datatype InterfaceData = InterfaceData(
    Node: string,
    Interface: string,
    Slot: string,
    Port: string,
    Description: string,
    Status: string,
    VLAN: string,
    Duplex: string,
    Speed: string,
    Type: string)

  /** subFunctions.InterfaceData: the older record, without Slot and Port. */
  datatype LegacyInterfaceData = LegacyInterfaceData(
    Node: string,
    Interface: string,
    Description: string,
    Status: string,
    VLAN: string,
    Duplex: string,
    Speed: string,
    Type: string)

  /** An inventory entry; every field is kept as text, the port included. */
  datatype Device = Device(Host: string, Port: string, Platform: string, Transport: string)

  /** The record with every field empty. */
  const EmptyRecord := InterfaceData("", "", "", "", "", "", "", "", "", "")
}
