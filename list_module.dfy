/** `ListModule`: `clusters list` fetches the clusters of the identity's group, or a single
    cluster when `--clusterName` (`-cn`) is given, from a URL built by plain text
    substitution. */
module ListModule {
  import opened Wrappers
  import opened JavaLang
  import opened CommandLines
  import opened Identities
  import opened CliModule

  const CLUSTERS_SEGMENT: string := "/clusters"
  const QUERY: string := "?pretty=true"

  /** The cluster part of the path: empty without a cluster name, else '/' and the name. */
  function ClusterPart(clusterName: Option<string>): (r: string)
    ensures clusterName.None? ==> r == ""
    ensures clusterName.Some? ==> |r| == |clusterName.value| + 1 && r[0] == '/' && r[1..] == clusterName.value
  {
    match clusterName
    case None => ""
    case Some(name) => "/" + name
  }

  /** The request URL of `_execute` below the address prefix `base` (`BASE_URL` in the
      client): the prefix, the group id as `%s` prints it (`null` for a missing one), the
      clusters resource, the optional cluster name, and the fixed query. Nothing is
      escaped. */
  function ListUrl(base: string, identity: Identity, clusterName: Option<string>): (r: string)
    ensures var g := StringValueOf(identity.groupId);
      && |r| == |base| + 1 + |g| + |CLUSTERS_SEGMENT| + |ClusterPart(clusterName)| + |QUERY|
      && r[..|base| + 1] == base + "/"
      && r[|base| + 1..|base| + 1 + |g|] == g
      && r[|base| + 1 + |g|..|r| - |QUERY|] == CLUSTERS_SEGMENT + ClusterPart(clusterName)
      && r[|r| - |QUERY|..] == QUERY
  {
    var g := StringValueOf(identity.groupId);
    var r := (base + "/") + (g + (CLUSTERS_SEGMENT + ClusterPart(clusterName))) + QUERY;
    assert r[..|base| + 1] == base + "/";
    assert r[|base| + 1..|base| + 1 + |g|] == g;
    assert r[|base| + 1 + |g|..|r| - |QUERY|] == CLUSTERS_SEGMENT + ClusterPart(clusterName);
    assert r[|r| - |QUERY|..] == QUERY;
    r
  }

  /** Reads the part after the group id back into the optional cluster name. */
  function ClusterTarget(tail: string): Option<Option<string>> {
    if tail == CLUSTERS_SEGMENT then Some(None)
    else if |tail| > |CLUSTERS_SEGMENT| && tail[..|CLUSTERS_SEGMENT| + 1] == CLUSTERS_SEGMENT + "/" then
      Some(Some(tail[|CLUSTERS_SEGMENT| + 1..]))
    else None
  }

  /** Reads the path below the prefix back into the group id (up to the first '/') and the
      optional cluster name. */
  function PathTarget(middle: string): Option<(string, Option<string>)> {
    var p := IndexOf(middle, '/');
    if p < 0 then None
    else
      match ClusterTarget(middle[p..])
      case None => None
      case Some(cn) => Some((middle[..p], cn))
  }

  /** Reads a listing URL below `base` back into its group id and optional cluster name. */
  function ListTarget(base: string, url: string): Option<(string, Option<string>)> {
    var pre := base + "/";
    if |url| < |pre| + |QUERY| || url[..|pre|] != pre || url[|url| - |QUERY|..] != QUERY then None
    else PathTarget(url[|pre|..|url| - |QUERY|])
  }

  /** The clusters resource and the cluster part read back as the cluster name. */
  lemma ClusterTargetRoundTrip(clusterName: Option<string>)
    ensures ClusterTarget(CLUSTERS_SEGMENT + ClusterPart(clusterName)) == Some(clusterName)
  {
    var tail := CLUSTERS_SEGMENT + ClusterPart(clusterName);
    if clusterName.Some? {
      assert tail[..|CLUSTERS_SEGMENT| + 1] == CLUSTERS_SEGMENT + "/";
      assert tail[|CLUSTERS_SEGMENT| + 1..] == clusterName.value;
      assert tail != CLUSTERS_SEGMENT;
    }
  }

  /** A group id without '/' followed by a part that starts with '/' splits back at that '/'. */
  lemma PathTargetSplit(g: string, tail: string)
    requires '/' !in g && |tail| > 0 && tail[0] == '/'
    ensures PathTarget(g + tail) ==
      match ClusterTarget(tail)
      case None => None
      case Some(cn) => Some((g, cn))
  {
    var middle := g + tail;
    assert middle[..|g|] == g;
    IndexOfAt(middle, '/', |g|);
    assert middle[|g|..] == tail;
  }

  /** A text between a prefix and a suffix is found again by cutting both off. */
  lemma Between(pre: string, middle: string, post: string)
    ensures var s := pre + middle + post;
      && |s| >= |pre| + |post|
      && s[..|pre|] == pre
      && s[|s| - |post|..] == post
      && s[|pre|..|s| - |post|] == middle
  {
    var s := pre + middle + post;
    assert s[..|pre|] == pre;
    assert s[|s| - |post|..] == post;
    assert s[|pre|..|s| - |post|] == middle;
  }

  /** The listing URL is the prefix with '/', the path, and the query. */
  lemma ListUrlParts(base: string, identity: Identity, clusterName: Option<string>)
    ensures ListUrl(base, identity, clusterName) ==
      (base + "/") + (StringValueOf(identity.groupId) + (CLUSTERS_SEGMENT + ClusterPart(clusterName))) + QUERY
  {
  }

  /** A URL made of the prefix, a path and the query is read back through its path. */
  lemma ListTargetPath(base: string, middle: string)
    ensures ListTarget(base, (base + "/") + middle + QUERY) == PathTarget(middle)
  {
    Between(base + "/", middle, QUERY);
  }

  /** The URL determines the group and the cluster name it was built from, as long as the
      group id holds no '/'; the cluster name may hold anything. */
  lemma ListUrlRoundTrip(base: string, identity: Identity, clusterName: Option<string>)
    requires '/' !in StringValueOf(identity.groupId)
    ensures ListTarget(base, ListUrl(base, identity, clusterName)) == Some((StringValueOf(identity.groupId), clusterName))
  {
    var g := StringValueOf(identity.groupId);
    var tail := CLUSTERS_SEGMENT + ClusterPart(clusterName);
    ListUrlParts(base, identity, clusterName);
    ListTargetPath(base, g + tail);
    PathTargetSplit(g, tail);
    ClusterTargetRoundTrip(clusterName);
  }

  /** `_execute`: the identity is resolved first (its failure ends the command), then the
      request goes to the listing URL for the `cn` value. */
  function ListRequest(cmd: CommandLine, config: ConfigFile): (r: Result<string, JavaException>)
    ensures GetIdentity(cmd, config).Err? ==> r == Err(GetIdentity(cmd, config).error)
    ensures GetIdentity(cmd, config).Ok? ==>
      r == Ok(ListUrl(BASE_URL, GetIdentity(cmd, config).value, GetOptionValue(cmd, "cn")))
  {
    match GetIdentity(cmd, config)
    case Err(e) => Err(e)
    case Ok(identity) => Ok(ListUrl(BASE_URL, identity, GetOptionValue(cmd, "cn")))
  }

  /** With group "g1" and no cluster name the whole group is listed. */
  lemma ListUrlGroupExample(base: string, identity: Identity)
    requires identity.groupId == Some("g1")
    ensures ListUrl(base, identity, None) == base + "/g1/clusters?pretty=true"
  {
  }

  /** With a cluster name it is appended after "/clusters/" verbatim. */
  lemma ListUrlClusterExample(base: string, identity: Identity)
    requires identity.groupId == Some("g1")
    ensures ListUrl(base, identity, Some("c0")) == base + "/g1/clusters/c0?pretty=true"
  {
    var g := "g1" + (CLUSTERS_SEGMENT + ClusterPart(Some("c0")));
    assert g == "g1/clusters/c0";
  }

  /** A `-g` given without a value prints as "null" in the path. */
  lemma ListUrlNullGroupExample(base: string, identity: Identity)
    requires identity.groupId == None
    ensures ListUrl(base, identity, None) == base + "/null/clusters?pretty=true"
  {
  }
}
