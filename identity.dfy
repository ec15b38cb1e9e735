/** `Identity`: the credentials of one invocation. The Java class keeps its three constructor
    arguments in final fields and its getters return them unchanged, which is exactly what an
    immutable datatype with three destructors provides. */
module Identities {
  import opened Wrappers
  import opened JavaLang
  import opened CommandLines

  /** `groupId` is null when `-g` was given without a value (possible only when there is no
      configuration file, because `g` then takes an optional argument). */
  datatype Identity = Identity(username: string, apiKey: string, groupId: Option<string>)

  /** `Identity.fromCommandLine`: the `u` value split at ':' gives the user name (piece 0)
      and the API key (piece 1); the group is the `g` value as given. A missing `u` value
      is a NullPointerException, fewer than two pieces an ArrayIndexOutOfBoundsException. */
  function FromCommandLine(cmd: CommandLine): (r: Result<Identity, JavaException>)
    ensures GetOptionValue(cmd, "u").None? ==> r == Err(NullPointer)
    ensures r.Ok? ==> r.value.groupId == GetOptionValue(cmd, "g")
  {
    match GetOptionValue(cmd, "u")
    case None => Err(NullPointer)
    case Some(credentials) =>
      var parts := Split(credentials, ':');
      if |parts| == 0 then Err(ArrayIndexOutOfBounds(0, 0))
      else if |parts| == 1 then Err(ArrayIndexOutOfBounds(1, 1))
      else Ok(Identity(parts[0], parts[1], GetOptionValue(cmd, "g")))
  }

  /** `s` has a ':' with some character other than ':' after it. */
  predicate ColonThenOther(s: string) {
    exists i, j :: 0 <= i < j < |s| && s[i] == ':' && s[j] != ':'
  }

  /** The credential string decides the outcome: it succeeds exactly when the string holds a
      ':' followed somewhere by a character other than ':'; otherwise the array access fails
      at index 0 or 1. */
  lemma FromCommandLineSucceeds(cmd: CommandLine, s: string)
    requires GetOptionValue(cmd, "u") == Some(s)
    ensures FromCommandLine(cmd).Ok? <==> ColonThenOther(s)
    ensures var r := FromCommandLine(cmd);
      r.Err? ==> r.error.ArrayIndexOutOfBounds? && r.error.index in {0, 1}
  {
    SplitFirstTwo(s, ':');
    if ColonThenOther(s) {
      var i, j :| 0 <= i < j < |s| && s[i] == ':' && s[j] != ':';
      assert s[i] in s;
    }
    var p := IndexOf(s, ':');
    if p >= 0 && exists j :: p < j < |s| && s[j] != ':' {
      var j :| p < j < |s| && s[j] != ':';
      assert s[p] == ':';
    }
  }

  /** On success the user name is the text before the first ':' and the key is the text after
      it up to the next ':' or the end, so later pieces are ignored; neither holds a ':'. */
  lemma FromCommandLinePieces(cmd: CommandLine, s: string)
    requires GetOptionValue(cmd, "u") == Some(s)
    ensures var r := FromCommandLine(cmd);
      r.Ok? ==>
        var p := IndexOf(s, ':');
        var rest := s[p + 1..];
        && 0 <= p && r.value.username == s[..p]
        && r.value.apiKey == (if ':' in rest then rest[..IndexOf(rest, ':')] else rest)
        && ':' !in r.value.username && ':' !in r.value.apiKey
  {
    SplitFirstTwo(s, ':');
  }

  /** A user name and a non-empty key, neither holding a ':', joined by one ':' come back
      apart unchanged. */
  lemma FromCommandLineJoined(cmd: CommandLine, user: string, key: string)
    requires ':' !in user && ':' !in key && key != ""
    requires GetOptionValue(cmd, "u") == Some(user + ":" + key)
    ensures FromCommandLine(cmd) == Ok(Identity(user, key, GetOptionValue(cmd, "g")))
  {
    var s := user + ":" + key;
    assert Join([':'], [user, key]) == s;
    SplitJoinRoundTrip([user, key], ':');
    assert s[|user|] == ':';
  }

  /** "alice:secret" gives the user "alice" and the key "secret". */
  lemma FromCommandLineUserAndKey(cmd: CommandLine)
    requires GetOptionValue(cmd, "u") == Some("alice:secret")
    ensures FromCommandLine(cmd) == Ok(Identity("alice", "secret", GetOptionValue(cmd, "g")))
  {
    assert "alice:secret" == "alice" + ":" + "secret";
    FromCommandLineJoined(cmd, "alice", "secret");
  }

  /** Pieces after the second one are ignored: a user name and a non-empty key, neither
      holding a ':', followed by ':' and anything at all, give that user and that key. */
  lemma FromCommandLineIgnoresRest(cmd: CommandLine, user: string, key: string, rest: string)
    requires ':' !in user && ':' !in key && key != ""
    requires GetOptionValue(cmd, "u") == Some(user + ":" + key + ":" + rest)
    ensures FromCommandLine(cmd) == Ok(Identity(user, key, GetOptionValue(cmd, "g")))
  {
    var s := user + ":" + key + ":" + rest;
    var tail := key + ":" + rest;
    assert s == user + ":" + tail;
    assert s[..|user|] == user && s[|user|] == ':';
    assert s[|user| + 1..] == tail;
    IndexOfAt(s, ':', |user|);
    assert tail[..|key|] == key && tail[|key|] == ':';
    IndexOfAt(tail, ':', |key|);
    assert s[|user| + 1] != ':';
    FromCommandLineSucceeds(cmd, s);
    FromCommandLinePieces(cmd, s);
  }

  /** "a:b:c" gives the user "a" and the key "b". */
  lemma FromCommandLineExtraPieces(cmd: CommandLine)
    requires GetOptionValue(cmd, "u") == Some("a:b:c")
    ensures FromCommandLine(cmd) == Ok(Identity("a", "b", GetOptionValue(cmd, "g")))
  {
    assert "a:b:c" == "a" + ":" + "b" + ":" + "c";
    FromCommandLineIgnoresRest(cmd, "a", "b", "c");
  }

  /** A leading ':' keeps an empty first piece: ":k" gives the user "" and the key "k". */
  lemma FromCommandLineEmptyUser(cmd: CommandLine)
    requires GetOptionValue(cmd, "u") == Some(":k")
    ensures FromCommandLine(cmd) == Ok(Identity("", "k", GetOptionValue(cmd, "g")))
  {
    assert ":k" == "" + [':'] + "k";
    SplitAllCons("", ':', "k");
    assert ':' !in "k";
  }

  /** Without a ':' there is a single piece, so "alice" fails at index 1. */
  lemma FromCommandLineNoColon(cmd: CommandLine)
    requires GetOptionValue(cmd, "u") == Some("alice")
    ensures FromCommandLine(cmd) == Err(ArrayIndexOutOfBounds(1, 1))
  {
    assert ':' !in "alice";
  }

  /** Trailing empty pieces are dropped, so a user name followed by ':' and nothing else is
      left with one piece and fails at index 1. */
  lemma FromCommandLineTrailingColon(cmd: CommandLine, user: string)
    requires ':' !in user && user != ""
    requires GetOptionValue(cmd, "u") == Some(user + ":")
    ensures FromCommandLine(cmd) == Err(ArrayIndexOutOfBounds(1, 1))
  {
    var s := user + ":";
    assert s == user + [':'] + "";
    assert s[|user|] == ':';
    SplitAllCons(user, ':', "");
    var xs := [user] + SplitAll("", ':');
    assert xs == [user, ""];
    assert xs[..1] == [user];
    assert StripTrailingEmpty(xs) == [user];
  }

  /** ":" splits into two empty pieces, both dropped, so the access fails at index 0. */
  lemma FromCommandLineOnlyColon(cmd: CommandLine)
    requires GetOptionValue(cmd, "u") == Some(":")
    ensures FromCommandLine(cmd) == Err(ArrayIndexOutOfBounds(0, 0))
  {
    assert ":" == "" + [':'] + "";
    SplitAllCons("", ':', "");
    assert ["", ""][..1] == [""];
    assert [""][..0] == [];
  }
}
