/** `AtlasModule`: the top-level command. After validating the first argument against
    `config` and `clusters` it hands the remaining arguments to the matching module. */
module AtlasModule {
  import opened Wrappers
  import opened JavaLang
  import opened CliModule

  const ATLAS_COMMANDS: seq<string> := ["config", "clusters"]

  /** `_execute`: validation first, then the first argument chooses the sub-module, which
      runs on the arguments after it. */
  function Route(args: seq<string>): (r: Result<Route, JavaException>)
    ensures r.Ok? <==> Validate(args, ATLAS_COMMANDS).Ok?
    ensures r.Err? ==> r == Err(Validate(args, ATLAS_COMMANDS).error)
  {
    match Validate(args, ATLAS_COMMANDS)
    case Err(e) => Err(e)
    case Ok(_) =>
      var firstArg := args[0];
      var subArgs := Tail(args);
      if firstArg == "config" then Ok(Run(ConfigCommand, subArgs))
      else if firstArg == "clusters" then Ok(Run(ClustersCommand, subArgs))
      else Ok(Nothing)
  }

  /** Every valid invocation runs exactly one sub-module, chosen by the first argument, on
      the arguments after the first (in order, one fewer); the final "nothing" branch of the
      source cannot be reached. */
  lemma RouteRunsOne(args: seq<string>)
    ensures var r := Route(args);
      r.Ok? ==>
        && |args| > 0 && r.value.Run?
        && (r.value.target == ConfigCommand <==> args[0] == "config")
        && (r.value.target == ClustersCommand <==> args[0] == "clusters")
        && |r.value.args| == |args| - 1
        && forall k :: 0 <= k < |r.value.args| ==> r.value.args[k] == args[k + 1]
  {
    if Route(args).Ok? {
      assert args[0] in ATLAS_COMMANDS;
    }
  }

  /** `atlas clusters list` hands `list` to the clusters module. */
  lemma RouteClustersExample(args: seq<string>)
    requires args == ["clusters", "list"]
    ensures Route(args) == Ok(Run(ClustersCommand, ["list"]))
  {
    assert args[0] in ATLAS_COMMANDS;
  }
}
