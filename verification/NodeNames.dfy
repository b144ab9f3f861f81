/** Consul node names, which service token AccessorIDs are derived from. */
module NodeNames {
  import opened ServiceTokens

  datatype Role = Agent | Server

  function RoleName(role: Role): string { if role == Agent then "agent" else "server" }

  /** strings.ReplaceAll(s, ".", "-"). */
  function Dashed(s: string): (r: string)
    ensures |r| == |s| && forall i :: 0 <= i < |s| ==> r[i] == if s[i] == '.' then '-' else s[i]
  {
    if s == "" then "" else [if s[0] == '.' then '-' else s[0]] + Dashed(s[1..])
  }

  function ConsulNodeName(role: Role, hostname: string): string {
    Dashed(RoleName(role) + "-" + hostname)
  }

  /** The host names differ at most in dots against dashes. */
  ghost predicate SameUpToDots(a: string, b: string) {
    |a| == |b| && forall i :: 0 <= i < |a| ==> SameChar(a[i], b[i])
  }

  predicate SameChar(c: char, d: char) { c == d || (c in {'.', '-'} && d in {'.', '-'}) }

  lemma NodeNameShape(role: Role, hostname: string)
    ensures ConsulNodeName(role, hostname) == RoleName(role) + "-" + Dashed(hostname)
  {
    var text, name := RoleName(role) + "-" + hostname, ConsulNodeName(role, hostname);
    assert forall i :: 0 <= i < |text| ==> name[i] == (RoleName(role) + "-" + Dashed(hostname))[i];
  }

  /** The role, a dash, and the host name with dashes for dots. */
  lemma NodeNameReads(role: Role, hostname: string)
    ensures var name, prefix := ConsulNodeName(role, hostname), if role.Server? then "server-" else "agent-";
      && |name| == |prefix| + |hostname| && name[..|prefix|] == prefix
      && forall i :: 0 <= i < |hostname| ==> name[|prefix| + i] == if hostname[i] == '.' then '-' else hostname[i]
  {
    NodeNameShape(role, hostname);
    assert role.Server? ==> RoleName(role) + "-" == "server-";
    assert role.Agent? ==> RoleName(role) + "-" == "agent-";
  }

  /** Two hosts get the same node name exactly when they have the same role and the same name up to dots and dashes. */
  lemma NodeNameCollisions(role: Role, hostname: string, role': Role, hostname': string)
    ensures ConsulNodeName(role, hostname) == ConsulNodeName(role', hostname')
       <==> role == role' && SameUpToDots(hostname, hostname')
  {
    NodeNameShape(role, hostname);
    NodeNameShape(role', hostname');
    var a, b := ConsulNodeName(role, hostname), ConsulNodeName(role', hostname');
    assert a[0] == RoleName(role)[0] && b[0] == RoleName(role')[0];
    if role == role' {
      var n := |RoleName(role)| + 1;
      assert a[n..] == Dashed(hostname) && b[n..] == Dashed(hostname');
      if SameUpToDots(hostname, hostname') {
        assert forall i :: 0 <= i < |hostname| ==> Dashed(hostname)[i] == Dashed(hostname')[i];
        assert Dashed(hostname) == Dashed(hostname');
      } else if |hostname| == |hostname'| {
        var i :| 0 <= i < |hostname| && !SameChar(hostname[i], hostname'[i]);
        assert Dashed(hostname)[i] != Dashed(hostname')[i];
      }
    }
  }

  /**
   * On host names without slashes two ensures share a token exactly when they are for the same service and their
   * hosts share a node name.
   */
  lemma TokensShared(service: string, role: Role, hostname: string, service': string, role': Role, hostname': string)
    requires '/' !in service && '/' !in hostname && '/' !in service' && '/' !in hostname'
    ensures ServiceTokenAccessorID(service, ConsulNodeName(role, hostname))
         == ServiceTokenAccessorID(service', ConsulNodeName(role', hostname'))
       <==> service == service' && role == role' && SameUpToDots(hostname, hostname')
  {
    NodeNameHasNoSlash(role, hostname);
    NodeNameHasNoSlash(role', hostname');
    NodeNameCollisions(role, hostname, role', hostname');
    AccessorOwnership(service, ConsulNodeName(role, hostname));
  }

  lemma NodeNameHasNoSlash(role: Role, hostname: string)
    requires '/' !in hostname
    ensures '/' !in ConsulNodeName(role, hostname)
  {
    var text := RoleName(role) + "-" + hostname;
    assert '/' !in RoleName(role);
    assert forall i :: 0 <= i < |text| ==> text[i] in RoleName(role) || text[i] == '-' || text[i] in hostname;
  }
}
