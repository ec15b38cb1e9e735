/** `ClustersModule`: the `clusters` command. After validating its first argument against
    `list` and `status` it hands the remaining arguments to the status report or to the
    cluster listing. */
module ClustersModule {
  import opened Wrappers
  import opened JavaLang
  import opened CliModule

  const CLUSTERS_COMMANDS: seq<string> := ["list", "status"]

  /** `_execute`: validation first; `status` runs the status module, anything else (which
      after validation can only be `list`) the list module, each on the arguments after the
      first. */
  function Route(args: seq<string>): (r: Result<Route, JavaException>)
    ensures r.Ok? <==> Validate(args, CLUSTERS_COMMANDS).Ok?
    ensures r.Err? ==> r == Err(Validate(args, CLUSTERS_COMMANDS).error)
  {
    match Validate(args, CLUSTERS_COMMANDS)
    case Err(e) => Err(e)
    case Ok(_) =>
      var firstArg := args[0];
      var subArgs := Tail(args);
      if firstArg == "status" then Ok(Run(StatusCommand, subArgs))
      else Ok(Run(ListCommand, subArgs))
  }

  /** Every valid invocation runs exactly one sub-module: the status report for `status`,
      the listing exactly for `list`, on the arguments after the first. */
  lemma RouteRunsOne(args: seq<string>)
    ensures var r := Route(args);
      r.Ok? ==>
        && |args| > 0 && r.value.Run?
        && (r.value.target == StatusCommand <==> args[0] == "status")
        && (r.value.target == ListCommand <==> args[0] == "list")
        && |r.value.args| == |args| - 1
        && forall k :: 0 <= k < |r.value.args| ==> r.value.args[k] == args[k + 1]
  {
    if Route(args).Ok? {
      assert args[0] in CLUSTERS_COMMANDS;
    }
  }

  /** No arguments after `clusters` is the "no command" error, before any routing. */
  lemma RouteNoCommand()
    ensures Route([]) == Err(IllegalArgument(NO_COMMAND_MESSAGE))
  {
  }
}
