/** `CliModule`: what every command of the client shares. It fixes the server address,
    checks the first positional argument against the commands a module accepts, decides
    where the credentials come from, and runs the optional help screen before the module's
    own body. The modules that hand over to a sub-module are described by `Route`. */
module CliModule {
  import opened Wrappers
  import opened JavaLang
  import opened CommandLines
  import opened Identities

  // ---------------------------------------------------------------- server address

  const HOST: string := "localhost"
  const PORT: int := 8080
  const SCHEME: string := "http"

  /** The address prefix of every request: scheme, host, the port unless it is a default
      web port, then the groups resource. */
  function BaseUrl(scheme: string, host: string, port: int): (r: string)
    ensures |scheme| + 3 + |host| <= |r| && r[..|scheme| + 3 + |host|] == scheme + "://" + host
    ensures |r| >= 22 && r[|r| - 22..] == "/api/atlas/v1.0/groups"
    ensures port == 80 || port == 443 ==> |r| == |scheme| + 3 + |host| + 22
    ensures port != 80 && port != 443 ==>
      && |r| == |scheme| + 3 + |host| + 1 + |IntToString(port)| + 22
      && r[|scheme| + 3 + |host|..|r| - 22] == ":" + IntToString(port)
  {
    var portPart := if port != 80 && port != 443 then ":" + IntToString(port) else "";
    var r := scheme + "://" + host + portPart + "/api/atlas/v1.0/groups";
    assert r[..|scheme| + 3 + |host|] == scheme + "://" + host;
    assert r[|r| - 22..] == "/api/atlas/v1.0/groups";
    assert r[|scheme| + 3 + |host|..|r| - 22] == portPart;
    r
  }

  const BASE_URL: string := BaseUrl(SCHEME, HOST, PORT)

  /** With the configured constants the prefix is the local development server,
      `http://localhost:8080/api/atlas/v1.0/groups`. */
  lemma BaseUrlValue()
    ensures BASE_URL == "http" + "://" + "localhost" + ":8080" + "/api/atlas/v1.0/groups"
  {
    PortText();
    assert ":" + IntToString(PORT) == ":8080";
  }

  /** The configured port prints as "8080". */
  lemma PortText()
    ensures IntToString(PORT) == "8080"
  {
    assert NatToString(8) == "8";
    assert NatToString(80) == "80";
    assert NatToString(808) == "808";
    assert NatToString(8080) == "8080";
  }

  // ---------------------------------------------------------------- command validation

  /** `toValidArgs`: the accepted commands, one per line. */
  function ToValidArgs(valid: seq<string>): string {
    Join("\n", valid)
  }

  /** The list can be read back from the message as long as no command holds a line break. */
  lemma ToValidArgsRoundTrip(valid: seq<string>)
    requires |valid| > 0
    requires forall k :: 0 <= k < |valid| ==> '\n' !in valid[k]
    ensures SplitAll(ToValidArgs(valid), '\n') == valid
  {
    SplitJoinRoundTrip(valid, '\n');
  }

  const NO_COMMAND_MESSAGE: string := "No valid command specified."

  /** `validate`: the first argument must be one of `valid`. No arguments at all, or an
      unknown first argument, is an IllegalArgumentException; otherwise nothing happens. */
  function Validate(args: seq<string>, valid: seq<string>): (r: Result<(), JavaException>)
    ensures r.Ok? <==> |args| > 0 && args[0] in valid
    ensures |args| == 0 ==> r == Err(IllegalArgument(NO_COMMAND_MESSAGE))
    ensures |args| > 0 && args[0] !in valid ==>
      r == Err(IllegalArgument("Uncrecognized command: " + args[0] + "\nValid Arguments: " + ToValidArgs(valid)))
  {
    if |args| == 0 then Err(IllegalArgument(NO_COMMAND_MESSAGE))
    else if args[0] !in valid then
      Err(IllegalArgument("Uncrecognized command: " + args[0] + "\nValid Arguments: " + ToValidArgs(valid)))
    else Ok(())
  }

  /** Only the first argument is looked at: argument lists that agree on it (or are both
      empty) are validated alike, whatever follows. */
  lemma {:induction false} ValidateFirstOnly(args: seq<string>, other: seq<string>, valid: seq<string>)
    requires |args| == 0 <==> |other| == 0
    requires |args| > 0 ==> args[0] == other[0]
    ensures Validate(args, valid) == Validate(other, valid)
  {
    if |args| > 0 {
      assert args[0] == other[0];
    }
  }

  /** The message for an unknown command names it and lists every accepted one, one per
      line: `Uncrecognized command: foo`, `Valid Arguments: list`, `status`. */
  lemma ValidateUnknownExample(args: seq<string>)
    requires |args| > 0 && args[0] == "foo"
    ensures Validate(args, ["list", "status"])
      == Err(IllegalArgument("Uncrecognized command: " + "foo" + "\nValid Arguments: " + ("list" + "\n" + "status")))
  {
    assert "foo" != "list" && "foo" != "status";
    assert ToValidArgs(["list", "status"]) == "list" + "\n" + "status";
  }

  // ---------------------------------------------------------------- credentials

  /** `hasIdentity`: both the user and the group option were given. */
  predicate HasIdentity(cmd: CommandLine) {
    HasOption(cmd, "u") && HasOption(cmd, "g")
  }

  /** The saved configuration `~/.atlas`: absent, or the outcome of loading it as a
      properties file (a failed load is an IOException with its message). */
  datatype ConfigFile = NoConfigFile | ConfigFile(properties: Result<map<string, string>, string>)

  const USERNAME_KEY: string := "atlas.username"
  const API_KEY_KEY: string := "atlas.apiKey"
  const GROUP_ID_KEY: string := "atlas.groupId"
  const INVALID_CONFIG_MESSAGE: string := "Invalid config file.  Run atlas config to rebuild."

  /** The configuration holds all three identity properties. */
  predicate CompleteConfig(props: map<string, string>) {
    USERNAME_KEY in props && API_KEY_KEY in props && GROUP_ID_KEY in props
  }

  /** `getIdentity`: the saved configuration is used when it exists and the command line
      lacks the user or the group; otherwise the identity comes from the command line. */
  function GetIdentity(cmd: CommandLine, config: ConfigFile): (r: Result<Identity, JavaException>)
    ensures config.NoConfigFile? || HasIdentity(cmd) ==> r == FromCommandLine(cmd)
    ensures config.ConfigFile? && !HasIdentity(cmd) && config.properties.Err? ==>
      r == Err(IO(config.properties.error))
    ensures config.ConfigFile? && !HasIdentity(cmd) && config.properties.Ok? ==>
      var props := config.properties.value;
      && (r.Ok? <==> CompleteConfig(props))
      && (r.Ok? ==> r.value == Identity(props[USERNAME_KEY], props[API_KEY_KEY], Some(props[GROUP_ID_KEY])))
      && (r.Err? ==> r.error == IllegalState(INVALID_CONFIG_MESSAGE))
  {
    if config.ConfigFile? && !HasIdentity(cmd) then
      match config.properties
      case Err(message) => Err(IO(message))
      case Ok(props) =>
        if !CompleteConfig(props) then Err(IllegalState(INVALID_CONFIG_MESSAGE))
        else Ok(Identity(props[USERNAME_KEY], props[API_KEY_KEY], Some(props[GROUP_ID_KEY])))
    else FromCommandLine(cmd)
  }

  /** With both `-u` and `-g` given the command line wins: the configuration file, present
      or not, readable or not, makes no difference. */
  lemma GetIdentityCommandLineWins(cmd: CommandLine, config: ConfigFile, other: ConfigFile)
    requires HasIdentity(cmd)
    ensures GetIdentity(cmd, config) == GetIdentity(cmd, other) == FromCommandLine(cmd)
  {
  }

  /** An identity read from the configuration always has a group, and an identity that has
      no group can therefore only come from a command line given `-g` without a value. */
  lemma GetIdentityGroup(cmd: CommandLine, config: ConfigFile)
    ensures var r := GetIdentity(cmd, config);
      r.Ok? && r.value.groupId.None? ==>
        (config.NoConfigFile? || HasIdentity(cmd)) && GetOptionValue(cmd, "g").None?
  {
  }

  /** Where a failure of `getIdentity` can come from: the command line (a missing user value
      or too few pieces in it) or the configuration file (unreadable or incomplete). */
  lemma GetIdentityErrors(cmd: CommandLine, config: ConfigFile)
    ensures var r := GetIdentity(cmd, config);
      r.Err? ==>
        r.error.NullPointer? || r.error.ArrayIndexOutOfBounds? || r.error.IO?
        || r.error == IllegalState(INVALID_CONFIG_MESSAGE)
  {
    if GetOptionValue(cmd, "u").Some? {
      FromCommandLineSucceeds(cmd, GetOptionValue(cmd, "u").value);
    }
  }

  // ---------------------------------------------------------------- execute

  /** The observable steps of `execute` once the command line is parsed. */
  datatype Step = PrintHelp | RunBody(cmd: CommandLine)

  /** `execute`: the help screen when `-h` was given, and the module's body in any case,
      after the help. */
  function ExecuteSteps(cmd: CommandLine): (r: seq<Step>)
    ensures |r| > 0 && r[|r| - 1] == RunBody(cmd)
    ensures PrintHelp in r <==> HasOption(cmd, "h")
    ensures |r| == if HasOption(cmd, "h") then 2 else 1
    ensures forall k :: 0 <= k < |r| - 1 ==> r[k] == PrintHelp
  {
    (if HasOption(cmd, "h") then [PrintHelp] else []) + [RunBody(cmd)]
  }

  // ---------------------------------------------------------------- hand-over to sub-modules

  /** The modules a command can hand over to. */
  datatype ModuleKind = ConfigCommand | ClustersCommand | StatusCommand | ListCommand

  /** What a routing module does after validation: run one sub-module on the remaining
      arguments, or nothing when no branch matches. */
  datatype Route = Run(target: ModuleKind, args: seq<string>) | Nothing

  /** `Arrays.copyOfRange(args, 1, args.length)`: the arguments after the first, in order. */
  function Tail(args: seq<string>): (r: seq<string>)
    requires |args| > 0
    ensures |r| == |args| - 1
    ensures forall k :: 0 <= k < |r| ==> r[k] == args[k + 1]
  {
    args[1..]
  }
}
