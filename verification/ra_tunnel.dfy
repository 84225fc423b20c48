/** Tunnel selection of the svn:// client (subversion/libsvn_ra_svn/client.c):
    `parse_tunnel`, `is_valid_hostinfo` and the command assembly of
    `find_tunnel_agent`.

    Strings are C strings without their terminator, so they contain no NUL.
    The configuration lookup, the environment and the tokenizer
    (`apr_tokenize_to_argv`) are parameters. */
module RaTunnel {
  import opened Wrappers
  import opened Errors

  /** A C string: no byte of it is the terminating NUL. */
  predicate IsCString(s: string) {
    '\0' !in s
  }

  function ToLowerAscii(c: char): char {
    if 'A' <= c <= 'Z' then (c as int + 32) as char else c
  }

  /** `strncasecmp(s, "svn", 3) == 0` */
  predicate StartsWithSvn(s: string) {
    |s| >= 3 && ToLowerAscii(s[0]) == 's' && ToLowerAscii(s[1]) == 'v' && ToLowerAscii(s[2]) == 'n'
  }

  /** The position of the first `c` in `s`, as `strchr` finds it. */
  function IndexOf(s: string, c: char): (r: Option<nat>)
    ensures r.None? <==> c !in s
    ensures r.Some? ==> r.value < |s| && s[r.value] == c && c !in s[..r.value]
  {
    if |s| == 0 then None
    else if s[0] == c then Some(0)
    else
      match IndexOf(s[1..], c)
      case None => None
      case Some(k) =>
        assert s[..k + 1] == [s[0]] + s[1..][..k];
        Some(k + 1)
  }

  /** `parse_tunnel`: the tunnel name of a URL of the form
      `svn+TUNNEL:...` (scheme letters in any case), or none. */
  function ParseTunnel(url: string): (tunnel: Option<string>)
    requires IsCString(url)
    ensures tunnel.Some? <==> StartsWithSvn(url) && |url| >= 4 && url[3] == '+' && ':' in url[4..]
    ensures tunnel.Some? ==>
      && 4 + |tunnel.value| < |url|
      && url[4..4 + |tunnel.value|] == tunnel.value
      && url[4 + |tunnel.value|] == ':'
      && ':' !in tunnel.value
  {
    if !StartsWithSvn(url) then None
    else if |url| == 3 || url[3] != '+' then None
    else
      var rest := url[4..];
      match IndexOf(rest, ':')
      case None => None
      case Some(p) => Some(rest[..p])
  }

  /** The tunnel name between `svn+` and the first colon is recovered
      whatever follows the colon and whatever case the scheme is written in. */
  lemma ParseTunnelRoundTrip(scheme: string, tunnel: string, rest: string)
    requires StartsWithSvn(scheme) && |scheme| == 3
    requires ':' !in tunnel
    requires IsCString(scheme) && IsCString(tunnel) && IsCString(rest)
    ensures IsCString(scheme + "+" + tunnel + ":" + rest)
    ensures ParseTunnel(scheme + "+" + tunnel + ":" + rest) == Some(tunnel)
  {
    var url := scheme + "+" + tunnel + ":" + rest;
    assert forall j :: 0 <= j < |url| ==> url[j] != '\0' by {
      forall j | 0 <= j < |url|
        ensures url[j] != '\0'
      {
        if j < 3 {
          assert url[j] == scheme[j];
        } else if j == 3 {
        } else if j < 4 + |tunnel| {
          assert url[j] == tunnel[j - 4];
        } else if j == 4 + |tunnel| {
        } else {
          assert url[j] == rest[j - 5 - |tunnel|];
        }
      }
    }
    assert url[..3] == scheme;
    assert url[4..] == tunnel + ":" + rest;
    assert (tunnel + ":" + rest)[|tunnel|] == ':';
    assert (tunnel + ":" + rest)[..|tunnel|] == tunnel;
  }

  /** `svn_ctype_isalnum`: ASCII letters and digits only. */
  predicate IsAlnum(c: char) {
    ('a' <= c <= 'z') || ('A' <= c <= 'Z') || ('0' <= c <= '9')
  }

  /** A character `is_valid_hostinfo` lets through. */
  predicate IsHostChar(c: char) {
    IsAlnum(c) || c in ":.-_[]@"
  }

  /** The scan of `is_valid_hostinfo` from position `i` on. */
  function HostCharsFrom(hostinfo: string, i: nat): (ok: bool)
    requires i <= |hostinfo|
    ensures ok <==> forall j :: i <= j < |hostinfo| ==> IsHostChar(hostinfo[j])
    decreases |hostinfo| - i
  {
    if i == |hostinfo| then true
    else if !IsHostChar(hostinfo[i]) then false
    else HostCharsFrom(hostinfo, i + 1)
  }

  /** `is_valid_hostinfo`: a whitelist of host characters, with a leading
      '-' refused so that the host can never be taken for an option of the
      tunnel command.  The empty host passes. */
  function IsValidHostinfo(hostinfo: string): (ok: bool)
    requires IsCString(hostinfo)
    ensures ok <==> (|hostinfo| == 0 || hostinfo[0] != '-')
                    && forall j :: 0 <= j < |hostinfo| ==> IsHostChar(hostinfo[j])
  {
    if |hostinfo| > 0 && hostinfo[0] == '-' then false
    else HostCharsFrom(hostinfo, 0)
  }

  /** The forms the comment above `is_valid_hostinfo` lists are accepted. */
  lemma HostinfoAcceptsListedForms()
    ensures IsValidHostinfo("user@server")
    ensures IsValidHostinfo("[::1]:22")
    ensures IsValidHostinfo("127.0.0.1")
    ensures IsValidHostinfo("server-name")
    ensures IsValidHostinfo("server_name")
  {
    UserAtHostAccepted();
    AddressesAccepted();
    HostnameAccepted("server", "-", "name");
    HostnameAccepted("server", "_", "name");
  }

  lemma UserAtHostAccepted()
    ensures IsValidHostinfo("user@server")
  {
  }

  lemma AddressesAccepted()
    ensures IsValidHostinfo("[::1]:22")
    ensures IsValidHostinfo("127.0.0.1")
  {
  }

  /** A host name of letters joined by one of '-' or '_' is accepted. */
  lemma HostnameAccepted(a: string, sep: string, b: string)
    requires forall j :: 0 <= j < |a| ==> 'a' <= a[j] <= 'z'
    requires forall j :: 0 <= j < |b| ==> 'a' <= b[j] <= 'z'
    requires sep == "-" || sep == "_"
    requires |a| > 0
    ensures IsCString(a + sep + b) && IsValidHostinfo(a + sep + b)
  {
    var h := a + sep + b;
    assert forall j :: 0 <= j < |h| ==> h[j] == (if j < |a| then a[j] else if j == |a| then sep[0] else b[j - |a| - 1]);
  }

  /** An option-like host and a host with a shell metacharacter are refused. */
  lemma HostinfoRefusesOptionsAndShell()
    ensures !IsValidHostinfo("-oProxyCommand=x")
    ensures !IsValidHostinfo("a;b")
  {
    assert "a;b"[1] == ';';
  }

  /** The predefined definition of the "ssh" tunnel. */
  const DefaultSshTunnel: string := "$SVN_SSH ssh -q --"

  /** `strcspn(s, " ")`: the length of the prefix without a space. */
  function SpanWithoutSpace(s: string): (n: nat)
    ensures n <= |s|
    ensures ' ' !in s[..n]
    ensures n < |s| ==> s[n] == ' '
  {
    if |s| == 0 || s[0] == ' ' then 0
    else
      var n := 1 + SpanWithoutSpace(s[1..]);
      assert s[..n] == [s[0]] + s[1..][..n - 1];
      n
  }

  /** Skip leading spaces, as the `while (*cmd == ' ')` loop does. */
  function TrimLeadingSpaces(s: string): (t: string)
    ensures |t| <= |s| && t == s[|s| - |t|..]
    ensures |t| > 0 ==> t[0] != ' '
    ensures forall j :: 0 <= j < |s| - |t| ==> s[j] == ' '
  {
    if |s| > 0 && s[0] == ' ' then TrimLeadingSpaces(s[1..]) else s
  }

  /** The command a tunnel scheme runs: its definition from the [tunnels]
      configuration section (`configured`), the built-in one for "ssh", and
      for a definition `$VAR rest` the environment variable VAR if set,
      else `rest` without its leading spaces. */
  function TunnelCommand(tunnel: string, configured: Option<string>, env: map<string, string>)
    : (r: Result<string, SvnError>)
    ensures configured.None? && tunnel != "ssh" ==> r == Failure(BadUrl)
    ensures configured == Some("") ==> r == Failure(BadUrl)
    ensures r.Failure? ==> r.error == BadUrl
    ensures configured.Some? && |configured.value| > 0 && configured.value[0] != '$' ==>
      r == Success(configured.value)
  {
    var definition := if configured.None? && tunnel == "ssh" then Some(DefaultSshTunnel) else configured;
    if definition.None? || definition.value == "" then
      Failure(BadUrl)
    else if definition.value[0] == '$' then
      ExpandVariable(definition.value[1..], env)
    else
      Success(definition.value)
  }

  /** The text after the `$` of a definition: the variable name runs up to
      the first space; its value wins, else the rest after the spaces. */
  function ExpandVariable(rest: string, env: map<string, string>): (r: Result<string, SvnError>)
    ensures r.Failure? ==> r.error == BadUrl
    // A bare `$NAME` has no fallback: an unset NAME is BAD_URL.
    ensures ' ' !in rest ==> r == if rest in env then Success(env[rest]) else Failure(BadUrl)
  {
    SpanOfSpaceFree(rest);
    var len := SpanWithoutSpace(rest);
    var name := rest[..len];
    assert ' ' !in rest ==> name == rest && rest[len..] == [];
    if name in env then
      Success(env[name])
    else
      var cmd := TrimLeadingSpaces(rest[len..]);
      if cmd == "" then Failure(BadUrl) else Success(cmd)
  }

  /** A definition `$NAME fallback` runs the environment's NAME if set and
      otherwise `fallback`, which must then not be blank. */
  lemma VariableDefinition(tunnel: string, name: string, fallback: string, env: map<string, string>)
    requires ' ' !in name
    ensures TunnelCommand(tunnel, Some("$" + name + " " + fallback), env) ==
      if name in env then Success(env[name])
      else if TrimLeadingSpaces(fallback) == "" then Failure(BadUrl)
      else Success(TrimLeadingSpaces(fallback))
  {
    var d := "$" + name + " " + fallback;
    var rest := name + " " + fallback;
    assert d[0] == '$' && d[1..] == rest;
    assert TunnelCommand(tunnel, Some(d), env) == ExpandVariable(rest, env);
    ExpandNameAndFallback(name, fallback, env);
  }

  lemma ExpandNameAndFallback(name: string, fallback: string, env: map<string, string>)
    requires ' ' !in name
    ensures ExpandVariable(name + " " + fallback, env) ==
      if name in env then Success(env[name])
      else if TrimLeadingSpaces(fallback) == "" then Failure(BadUrl)
      else Success(TrimLeadingSpaces(fallback))
  {
    var rest := name + " " + fallback;
    SpanOfName(name, fallback);
    assert rest[..|name|] == name && rest[|name|..] == " " + fallback;
    TrimOneSpace(fallback);
  }

  /** `strcspn` runs to the end of a space-free string. */
  lemma {:induction false} SpanOfSpaceFree(s: string)
    ensures ' ' !in s ==> SpanWithoutSpace(s) == |s|
  {
    if |s| > 0 && ' ' !in s {
      assert ' ' !in s[1..] by {
        forall j | 0 <= j < |s[1..]|
          ensures s[1..][j] != ' '
        {
          assert s[1..][j] == s[j + 1];
        }
      }
      SpanOfSpaceFree(s[1..]);
    }
  }

  /** A definition `$NAME` with nothing after the name runs the
      environment's NAME, and is BAD_URL when NAME is unset. */
  lemma BareVariableDefinition(tunnel: string, name: string, env: map<string, string>)
    requires ' ' !in name
    ensures TunnelCommand(tunnel, Some("$" + name), env) ==
      if name in env then Success(env[name]) else Failure(BadUrl)
  {
    var d := "$" + name;
    assert d[0] == '$' && d[1..] == name;
  }

  /** `strcspn` stops at the space after a space-free name. */
  lemma {:induction false} SpanOfName(name: string, rest: string)
    requires ' ' !in name
    ensures SpanWithoutSpace(name + " " + rest) == |name|
  {
    if |name| > 0 {
      var s := name + " " + rest;
      assert s[0] == name[0] && s[1..] == name[1..] + " " + rest;
      assert ' ' !in name[1..] by {
        forall j | 0 <= j < |name[1..]|
          ensures name[1..][j] != ' '
        {
          assert name[1..][j] == name[j + 1];
        }
      }
      SpanOfName(name[1..], rest);
    }
  }

  /** One leading space more changes nothing once spaces are skipped. */
  lemma TrimOneSpace(s: string)
    ensures TrimLeadingSpaces(" " + s) == TrimLeadingSpaces(s)
  {
    assert (" " + s)[1..] == s;
  }

  /** With no [tunnels] entry, "ssh" runs $SVN_SSH if set and otherwise
      `ssh -q --`. */
  lemma DefaultSsh(env: map<string, string>)
    ensures TunnelCommand("ssh", None, env) ==
      if "SVN_SSH" in env then Success(env["SVN_SSH"]) else Success("ssh -q --")
  {
    var fallback := "ssh -q --";
    assert DefaultSshTunnel == "$" + "SVN_SSH" + " " + fallback;
    assert TrimLeadingSpaces(fallback) == fallback by { assert fallback[0] == 's'; }
    VariableDefinition("ssh", "SVN_SSH", fallback, env);
  }

  /** `find_tunnel_agent`: the argument vector of the tunnel agent, the
      tokenized command followed by the host and `svnserve -t`.  A failed
      tokenization is the APR status it returned. */
  function FindTunnelAgent(tunnel: string, hostinfo: string, configured: Option<string>,
                           env: map<string, string>, tokenize: string -> Result<seq<string>, int>)
    : (r: Result<seq<string>, SvnError>)
    ensures TunnelCommand(tunnel, configured, env).Failure? ==> r == Failure(BadUrl)
    ensures TunnelCommand(tunnel, configured, env).Success? ==>
      var cmd := TunnelCommand(tunnel, configured, env).value;
      match tokenize(cmd)
      case Failure(status) => r == Failure(IoError(status))
      case Success(args) =>
        && r.Success?
        && |r.value| == |args| + 3
        && r.value[..|args|] == args
        && r.value[|args|..] == [hostinfo, "svnserve", "-t"]
  {
    match TunnelCommand(tunnel, configured, env)
    case Failure(e) => Failure(e)
    case Success(cmd) =>
      match tokenize(cmd)
      case Failure(status) => Failure(IoError(status))
      case Success(args) => Success(args + [hostinfo, "svnserve", "-t"])
  }
}
