/**
 * Command-line validation. Flag parsing itself (the global flag set, the
 * usage text) is not modelled: the parsed values come in as a FlagValues.
 */
module Flags {
  import opened Wrappers

  const UsernameRequired := "error: Username is required. Please provide a username with --u (eg. --u admin)"
  const PasswordRequired := "error: Password is required. Please provide a password with --p (eg. --p password)"
  const InventoryRequired := "error: Inventory file is required. Please provide a file with --f (eg. --f ./Inventory.yml)"

  /** The values of -u, -p, -f, -base and -gen after parsing. */
  datatype FlagValues = FlagValues(username: string, password: string, file: string, base: bool, gen: bool)

  /**
   * validateFlags: the first missing value among username, password and
   * file, in that order, is reported; nothing is reported when all three
   * are given.
   */
  function ValidateFlags(username: string, password: string, file: string): (err: Option<string>)
    ensures err.None? <==> username != "" && password != "" && file != ""
    ensures username == "" ==> err == Some(UsernameRequired)
    ensures username != "" && password == "" ==> err == Some(PasswordRequired)
    ensures username != "" && password != "" && file == "" ==> err == Some(InventoryRequired)
  {
    if username == "" then Some(UsernameRequired)
    else if password == "" then Some(PasswordRequired)
    else if file == "" then Some(InventoryRequired)
    else None
  }

  /** SetupFlags of the current command: generating an inventory from a given file skips validation. */
  function SetupFlags(f: FlagValues): (err: Option<string>)
    ensures f.gen && f.file != "" ==> err.None?
    ensures !(f.gen && f.file != "") ==> err == ValidateFlags(f.username, f.password, f.file)
  {
    if f.gen && f.file != "" then None else ValidateFlags(f.username, f.password, f.file)
  }

  /** SetupFlags of the older command, which has no -gen flag and always validates. */
  function LegacySetupFlags(f: FlagValues): (err: Option<string>)
    ensures err.None? <==> f.username != "" && f.password != "" && f.file != ""
  {
    ValidateFlags(f.username, f.password, f.file)
  }

  /**
   * The current command accepts everything the older one accepts, and
   * beyond that exactly the -gen runs with a file but without credentials.
   */
  lemma SetupFlagsAcceptsMore(f: FlagValues)
    ensures LegacySetupFlags(f).None? ==> SetupFlags(f).None?
    ensures SetupFlags(f).None? && LegacySetupFlags(f).Some? <==>
      f.gen && f.file != "" && (f.username == "" || f.password == "")
    ensures SetupFlags(f).Some? ==> SetupFlags(f) == LegacySetupFlags(f)
  {
  }
}
