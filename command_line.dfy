/** A command line after commons-cli has parsed it. Parsing itself (option definitions,
    required options, long names) belongs to the library and is not modelled. */
module CommandLines {
  import opened Wrappers

  /** The options that were given, each with its value, or null when the option takes an
      optional argument and none was supplied. */
  datatype CommandLine = CommandLine(options: map<string, Option<string>>)

  /** `CommandLine.hasOption`. */
  predicate HasOption(cmd: CommandLine, name: string) {
    name in cmd.options
  }

  /** `CommandLine.getOptionValue`: null for an absent option or one given without a value. */
  function GetOptionValue(cmd: CommandLine, name: string): (v: Option<string>)
    ensures v.Some? ==> HasOption(cmd, name)
  {
    if name in cmd.options then cmd.options[name] else None
  }
}
