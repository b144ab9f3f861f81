/** Setting up one host after another: who is first, what the first hands on, and what the others end up with. */
module Handoff {
  import opened GoText
  import opened Archive
  import opened Credentials
  import opened Paths
  import opened SetupSteps
  import opened Ldap
  import opened Slices
  import Daemon
  import Polling

  const SERVICE_DISCOVER := "service-discover"
  /** The home the import path looks under, whatever home its own files go to. */
  const CONSUL_HOME := "/var/lib/service-discover"

  /** What a successful setup leaves on its host: gossip key, CA, the root token it used and its own token. */
  datatype Installed = Installed(gossip: Bytes, ca: Bytes, rootToken: string, nodeToken: string)

  /** An uploaded archive, and the Consul home of the host that packed it. */
  datatype Package = Package(password: string, salt: nat, tar: Tar, home: string)

  datatype FetchError = Unavailable | BadArchive(error: ExtractError)

  /** The servers the directory lists as running service-discover. */
  ghost function Servers(entries: seq<ServerEntry>): set<string> { Elements(WithService(entries, SERVICE_DISCOVER)) }

  /** AddService and nothing else happened to the registry, or not even that. */
  ghost predicate AtMostAdded(entries: seq<ServerEntry>, entries': seq<ServerEntry>, host: string) {
    && WellFormed(entries) && WellFormed(entries')
    && (RegistryOf(entries') == RegistryOf(entries)
        || RegistryOf(entries') == Update(RegistryOf(entries), host, AddValue(SERVICE_DISCOVER)))
  }

  lemma ServersOf(entries: seq<ServerEntry>, h: string)
    requires WellFormed(entries)
    ensures h in Servers(entries) <==> h in RegistryOf(entries) && SERVICE_DISCOVER in RegistryOf(entries)[h]
  {
    RegistryDescribes(entries);
    ListedAreRegistered(RegistryOf(entries), entries, SERVICE_DISCOVER, h);
  }

  lemma ServerAfter(entries: seq<ServerEntry>, entries': seq<ServerEntry>, host: string, h: string)
    requires AtMostAdded(entries, entries', host)
    ensures h in Servers(entries) ==> h in Servers(entries')
    ensures h in Servers(entries') && h !in Servers(entries) ==> h == host
    ensures RegistryOf(entries') == RegistryOf(entries) ==> (h in Servers(entries') <==> h in Servers(entries))
  {
    ServersOf(entries, h);
    ServersOf(entries', h);
  }

  /** The list of servers grows by the host or not at all; by a successful AddService the host is in it. */
  lemma ServersAfter(entries: seq<ServerEntry>, entries': seq<ServerEntry>, host: string)
    requires AtMostAdded(entries, entries', host)
    ensures Servers(entries) <= Servers(entries') <= Servers(entries) + {host}
    ensures RegistryOf(entries') == RegistryOf(entries) ==> Servers(entries') == Servers(entries)
    ensures var before := RegistryOf(entries);
      (host in before && RegistryOf(entries') == Update(before, host, AddValue(SERVICE_DISCOVER)) ==>
         host in Servers(entries'))
  {
    forall h
      ensures h in Servers(entries) ==> h in Servers(entries')
      ensures h in Servers(entries') && h !in Servers(entries) ==> h == host
      ensures RegistryOf(entries') == RegistryOf(entries) ==> (h in Servers(entries') <==> h in Servers(entries))
    {
      ServerAfter(entries, entries', host, h);
    }
    ServersOf(entries', host);
  }

  lemma HostsStay(entries: seq<ServerEntry>, entries': seq<ServerEntry>, host: string)
    requires AtMostAdded(entries, entries', host)
    ensures RegistryOf(entries').Keys == RegistryOf(entries).Keys
  {
    var reg := RegistryOf(entries);
    assert Update(reg, host, AddValue(SERVICE_DISCOVER)).Keys == reg.Keys;
  }

  /** AddServiceInLDAP: success lists the host; a failed Modify may have listed it all the same. */
  method AddServiceInLdap(ldap: LdapContext, host: string) returns (r: Option<LdapError>)
    requires ldap.Valid()
    modifies ldap`open, ldap`dials, ldap`failures, ldap`entries, ldap.masters
    ensures ldap.Valid() && ldap.open == old(ldap.open) && AtMostAdded(old(ldap.entries), ldap.entries, host)
    ensures Servers(old(ldap.entries)) <= Servers(ldap.entries) <= Servers(old(ldap.entries)) + {host}
    ensures r.None? ==> host in Servers(ldap.entries)
    ensures ldap.failures >= old(ldap.failures)
    ensures Tried(old(ldap.dials), ldap.dials, old(ldap.Urls(true)),
                  r !in {Some(NoURLsDefined), Some(ConnectionFailed)})
    ensures if Served(old(ldap.dials), ldap.dials, old(ldap.failures), ldap.failures)
            then r == if host in RegistryOf(old(ldap.entries)) then None else Some(ServerNotFound)
            else r !in {None, Some(ServerNotFound)}
  {
    r := ldap.ModifyEnabledServices(host, AddValue(SERVICE_DISCOVER));
    ServersAfter(old(ldap.entries), ldap.entries, host);
  }

  /**
   * Somebody is registered exactly when one first-path setup has registered itself, and only its secrets were ever
   * uploaded.
   */
  ghost predicate Consistent(codec: Codec, entries: seq<ServerEntry>, credentials: Option<string>,
                             origin: Option<Secrets>, registrations: nat, sealed: Option<Package>)
  {
    && (origin.None? <==> Servers(entries) == {})
    && registrations == (if origin.Some? then 1 else 0)
    && (credentials.Some? ==>
          origin.Some? && sealed.Some? && Holds(codec, credentials.value, origin.value, sealed.value))
  }

  lemma StaysConsistent(codec: Codec, entries: seq<ServerEntry>, entries': seq<ServerEntry>,
                        credentials: Option<string>, origin: Option<Secrets>, registrations: nat,
                        sealed: Option<Package>)
    requires Consistent(codec, entries, credentials, origin, registrations, sealed) && origin.Some?
    requires Servers(entries) <= Servers(entries')
    ensures Consistent(codec, entries', credentials, origin, registrations, sealed)
  {
  }

  lemma BecomesConsistent(codec: Codec, entries: seq<ServerEntry>, entries': seq<ServerEntry>,
                          credentials: Option<string>, registrations: nat, sealed: Option<Package>, made: Secrets)
    requires Consistent(codec, entries, credentials, None, registrations, sealed)
    ensures Servers(entries') != {} ==> Consistent(codec, entries', credentials, Some(made), registrations + 1, sealed)
    ensures Servers(entries') == {} ==> Consistent(codec, entries', credentials, None, registrations, sealed)
  {
  }

  lemma NothingAdded(entries: seq<ServerEntry>, host: string)
    requires WellFormed(entries)
    ensures AtMostAdded(entries, entries, host)
  {
  }

  ghost predicate Holds(codec: Codec, stored: string, s: Secrets, p: Package) {
    && stored == Base64.Encode(codec.seal(p.password, p.salt, p.tar))
    && Packs(p.tar, s) && NamedFor(p.tar, p.home)
  }

  /** The installation took the gossip key, the CA and the root token of these secrets. */
  ghost predicate IsInstalled(secretId: Bytes -> Option<string>, installed: Installed, s: Secrets) {
    && installed.gossip == s.gossip && installed.ca == s.ca
    && secretId(s.bootstrap) == Some(installed.rootToken)
  }

  /** One step of a rollout: a setup command on a host, or somebody clearing a host by hand. */
  datatype Action =
    | Server(host: string, home: string, password: string, made: Secrets, salt: nat)
    | Agent(host: string, home: string, password: string)
    | Reset(host: string)

  /** The CA key of an import is gone unless writing or removing it failed. */
  ghost predicate KeyGone(host: string, before: set<string>, after: set<string>, leaks: nat, leaks': nat, done: bool) {
    && leaks <= leaks'
    && (forall h :: h != host ==> (h in after <==> h in before))
    && (leaks' == leaks ==> after == before || host !in after)
    && (leaks' == leaks && done ==> host !in after)
  }

  /** Polls were made, and the last of them saw a leader. */
  ghost predicate LeaderSeen(before: seq<Polling.Poll>, after: seq<Polling.Poll>) {
    before < after && Polling.SeesLeader(after[|after| - 1])
  }

  /** Creates were made; the token came from the last of them, and those before it had failed. */
  ghost predicate TokenIssued(token: string, before: seq<Polling.Create>, after: seq<Polling.Create>) {
    && before < after && after[|after| - 1].output == Some(Some(token))
    && forall i :: |before| <= i < |after| - 1 ==> after[i].output.None?
  }

  /** The last of these printed a token. */
  ghost predicate LastIssued(creates: seq<Polling.Create>) {
    creates != [] && creates[|creates| - 1].output.Some? && creates[|creates| - 1].output.value.Some?
  }

  lemma InstalledAs(secretId: Bytes -> Option<string>, s: Secrets, rootToken: string, nodeToken: string)
    ensures secretId(s.bootstrap) == Some(rootToken) ==>
      IsInstalled(secretId, Installed(s.gossip, s.ca, rootToken, nodeToken), s)
  {
  }

  lemma OpensMeans(sealed: Option<Package>, password: string, home: string)
    ensures Opens(sealed, password, home) <==> sealed.Some? && password == sealed.value.password
                                               && !sealed.value.tar.damaged && HomesAgree(home, sealed.value.home)
  {
  }

  lemma KeyUntouched(host: string, keys: set<string>, leaks: nat)
    ensures KeyGone(host, keys, keys, leaks, leaks, false)
  {
  }

  lemma IssuedBy(r: Result<string, Polling.AclError>, before: seq<Polling.Create>, creates: seq<Polling.Create>)
    requires r.Ok? ==> Polling.FailedButLast(creates) && creates[|creates| - 1].output == Some(Some(r.value))
    ensures r.Ok? ==> TokenIssued(r.value, before, before + creates)
  {
    var after := before + creates;
    if r.Ok? {
      assert after[|after| - 1] == creates[|creates| - 1];
      forall i | |before| <= i < |after| - 1 ensures after[i].output.None? {
        assert after[i] == creates[i - |before|];
      }
    }
  }

  /** A root token can be read from the bootstrap answer, and put into an environment. */
  predicate Readable(secretId: Bytes -> Option<string>, bootstrap: Bytes) {
    secretId(bootstrap).Some? && '\0' !in secretId(bootstrap).value
  }

  /** What was uploaded opens with this password for a host that looks under this home. */
  ghost predicate Opens(sealed: Option<Package>, password: string, home: string) {
    && sealed.Some? && password == sealed.value.password && !sealed.value.tar.damaged
    && HomesAgree(home, sealed.value.home)
  }

  /** The steps of a server once its path is chosen. */
  ghost function PathSteps(host: string, files: set<string>, entries: seq<ServerEntry>): seq<Step> {
    if host !in files && Servers(entries) == {} then FIRST else IMPORT
  }

  class Cluster {
    const ldap: LdapContext
    const agent: Polling.Agent
    const shell: Polling.Shell
    const codec: Codec
    /** The SecretID in the answer to an ACL bootstrap. */
    const secretId: Bytes -> Option<string>
    /** The home that the import path looks under. */
    const importHome: string
    /** Hosts with a main.json, with a readable cluster credential file, and with a CA key in the Consul home. */
    var configured: set<string>
    var credentialFiles: set<string>
    var caKeys: set<string>
    /** How many temporary files with secrets there are on all hosts. */
    var temps: nat
    /** The secrets of the first-path setup that registered itself, how many did, and what was uploaded last. */
    ghost var origin: Option<Secrets>
    ghost var registrations: nat
    ghost var sealed: Option<Package>
    /**
     * How many calls to the outside have failed so far: commands, files, addresses, arguments, LDAP, Consul. And how
     * many of these were removals of a secret, or writes of one that left a part of it.
     */
    ghost var failures: nat
    ghost var leaks: nat
    /** What the setups have got done. */
    ghost var steps: seq<Step>

    /** Before any setup: an empty registry and no uploaded credentials, but any files on the hosts. */
    constructor (ldap: LdapContext, agent: Polling.Agent, shell: Polling.Shell, codec: Codec,
                 secretId: Bytes -> Option<string>, configured: set<string>, credentialFiles: set<string>,
                 caKeys: set<string>)
      requires ldap.Valid() && Sound(codec)
      requires Servers(ldap.entries) == {} && ldap.credentials == None
      ensures Valid() && origin == None && temps == failures == leaks == 0 && steps == []
      ensures this.ldap == ldap && this.agent == agent && this.shell == shell && importHome == CONSUL_HOME
    {
      this.ldap, this.agent, this.shell, this.codec, this.secretId := ldap, agent, shell, codec, secretId;
      importHome := CONSUL_HOME;
      this.configured, this.credentialFiles, this.caKeys, temps := configured, credentialFiles, caKeys, 0;
      origin, registrations, sealed, failures, leaks, steps := None, 0, None, 0, 0, [];
    }

    ghost predicate Valid()
      reads this`origin, this`registrations, this`sealed, ldap`entries, ldap`credentials
    {
      ldap.Valid() && Sound(codec) && Consistent(codec, ldap.entries, ldap.credentials, origin, registrations, sealed)
    }

    lemma ValidMeans()
      requires Valid()
      ensures ldap.Valid() && (origin.None? <==> Servers(ldap.entries) == {})
      ensures origin.None? ==> ldap.credentials.None?
      ensures registrations <= 1
    {
    }

    lemma Unfolded()
      requires Valid()
      ensures ldap.Valid() && Sound(codec)
      ensures Consistent(codec, ldap.entries, ldap.credentials, origin, registrations, sealed)
    {
    }

    lemma Folded()
      requires ldap.Valid() && Sound(codec)
      requires Consistent(codec, ldap.entries, ldap.credentials, origin, registrations, sealed)
      ensures Valid()
    {
    }

    /** What is uploaded is the sealed archive of the first server's secrets. */
    lemma UploadedIsSealed()
      requires Valid() && ldap.credentials.Some?
      ensures origin.Some? && sealed.Some? && Sound(codec)
      ensures Packs(sealed.value.tar, origin.value) && NamedFor(sealed.value.tar, sealed.value.home)
      ensures var p := sealed.value;
        Base64.Decode(ldap.credentials.value) == Some(codec.seal(p.password, p.salt, p.tar))
    {
      var p := sealed.value;
      Base64.RoundTrip(codec.seal(p.password, p.salt, p.tar));
    }

    lemma NothingAddedYet(host: string)
      requires Valid()
      ensures AtMostAdded(ldap.entries, ldap.entries, host)
    {
      NothingAdded(ldap.entries, host);
    }

    /** A call to the outside. */
    method Try() returns (ok: bool)
      modifies this`failures
      ensures failures == old(failures) + if ok then 0 else 1
    {
      ok := *;
      failures := failures + if ok then 0 else 1;
    }

    ghost method Did(step: Step, ok: bool)
      modifies this`steps
      ensures Progress(old(steps), steps, [step], ok)
    {
      steps := if ok then steps + [step] else steps;
    }

    /** A call that takes a setup one step further. */
    method Call(step: Step) returns (ok: bool)
      modifies this`failures, this`steps
      ensures failures == old(failures) + if ok then 0 else 1
      ensures Progress(old(steps), steps, [step], ok)
    {
      ok := Try();
      Did(step, ok);
    }

    /** Counts the LDAP calls since then that failed, where a connection that no URL gave is one. */
    ghost method CountLdap(dials: Dials, before: nat)
      requires before <= ldap.failures
      modifies this`failures
      ensures failures >= old(failures)
      ensures failures == old(failures) <==> Served(dials, ldap.dials, before, ldap.failures)
    {
      var unconnected := if Served(dials, ldap.dials, ldap.failures, ldap.failures) then 0 else 1;
      failures := failures + (ldap.failures - before) + unconnected;
    }

    /** CheckServerAvailability, which fails only where a call does. */
    method Available(write: bool) returns (ok: bool)
      requires Valid()
      modifies this`failures, ldap`open, ldap`dials, ldap`failures, ldap.masters
      ensures Valid()
      ensures failures >= old(failures) && (ok <==> failures == old(failures))
    {
      ghost var dials, before := ldap.dials, ldap.failures;
      ok := ldap.CheckServerAvailability(write);
      CountLdap(dials, before);
    }

    /** A local credential file rules the first path out; otherwise an empty list of servers decides. */
    method IsFirstInstance(host: string) returns (r: Option<bool>)
      requires Valid()
      modifies this`failures, ldap`open, ldap`dials, ldap`failures, ldap.masters
      ensures Valid()
      ensures r.Some? ==> (r.value <==> host !in credentialFiles && Servers(ldap.entries) == {})
      ensures failures >= old(failures) && (r.Some? <==> failures == old(failures))
    {
      if host in credentialFiles {
        return Some(false);
      }
      ghost var dials, before := ldap.dials, ldap.failures;
      var servers := ldap.QueryAllServersWithService(SERVICE_DISCOVER);
      CountLdap(dials, before);
      if servers.Err? {
        return None;
      }
      assert Servers(ldap.entries) == {} <==> servers.value == [] by {
        assert servers.value != [] ==> servers.value[0] in Servers(ldap.entries);
      }
      return Some(|servers.value| == 0);
    }

    /** RetrieveZimbraHostname, which needs a master. */
    method KnowHost() returns (ok: bool)
      requires Valid()
      modifies this`failures, this`steps, ldap`open, ldap`dials, ldap`failures, ldap.masters
      ensures Valid()
      ensures failures >= old(failures) && (ok <==> failures == old(failures))
      ensures Progress(old(steps), steps, [HostKnown], ok)
    {
      ok := Available(true);
      Did(HostKnown, ok);
    }

    /** The same and CheckHostnameAddress. */
    method CheckHost() returns (ok: bool)
      requires Valid()
      modifies this`failures, this`steps, ldap`open, ldap`dials, ldap`failures, ldap.masters
      ensures Valid()
      ensures failures >= old(failures) && (ok <==> failures == old(failures))
      ensures Progress(old(steps), steps, [HostKnown, AddressChecked], ok)
    {
      var known := KnowHost();
      ghost var before := steps;
      ok := false;
      if known {
        ok := Call(AddressChecked);
      }
      Onward(old(steps), before, steps, [HostKnown], [AddressChecked], known, ok);
      assert [HostKnown] + [AddressChecked] == [HostKnown, AddressChecked];
    }

    /** main.json, which is on disk before its permissions are set, and the bind address. */
    method Configure(host: string) returns (ok: bool)
      modifies this`configured, this`failures, this`steps
      ensures ok ==> host in configured
      ensures configured == old(configured) || configured == old(configured) + {host}
      ensures failures >= old(failures) && (ok <==> failures == old(failures))
      ensures Progress(old(steps), steps, CONFIGURE, ok)
    {
      var written := Call(ConfigurationWritten);
      ghost var first := steps;
      var restricted := false;
      if written {
        configured := configured + {host};
        restricted := Call(ConfigurationProtected);
      }
      ghost var second := steps;
      ok := false;
      if restricted {
        ok := Call(BindAddressSaved);
      }
      Onward(old(steps), first, second, [ConfigurationWritten], [ConfigurationProtected], written, restricted);
      Onward(old(steps), second, steps, [ConfigurationWritten] + [ConfigurationProtected], [BindAddressSaved],
             restricted, ok);
      assert [ConfigurationWritten] + [ConfigurationProtected] + [BindAddressSaved] == CONFIGURE;
    }

    /** The server's certificate and configuration. */
    method Generate(host: string) returns (ok: bool)
      modifies this`configured, this`failures, this`steps
      ensures ok ==> host in configured
      ensures configured == old(configured) || configured == old(configured) + {host}
      ensures failures >= old(failures) && (ok <==> failures == old(failures))
      ensures Progress(old(steps), steps, [Certified] + CONFIGURE, ok)
    {
      var certified := Call(Certified);
      ghost var before := steps;
      ok := false;
      if certified {
        ok := Configure(host);
      }
      Onward(old(steps), before, steps, [Certified], CONFIGURE, certified, ok);
    }

    /** AddServiceInLDAP. Without a failing call it succeeds exactly when the host has an entry. */
    method AddService(host: string) returns (ok: bool)
      requires Valid()
      modifies this`failures, this`steps, ldap`open, ldap`dials, ldap`failures, ldap`entries, ldap.masters
      ensures ldap.Valid() && AtMostAdded(old(ldap.entries), ldap.entries, host)
      ensures Progress(old(steps), steps, [Registered], ok)
      ensures origin.Some? ==> Valid()
      ensures Servers(old(ldap.entries)) <= Servers(ldap.entries) <= Servers(old(ldap.entries)) + {host}
      ensures ok ==> host in Servers(ldap.entries) && host in RegistryOf(old(ldap.entries))
      ensures failures >= old(failures)
      ensures failures == old(failures) ==> (ok <==> host in RegistryOf(old(ldap.entries)))
    {
      hide *;
      Unfolded();
      ok := Enlist(host);
      if origin.Some? {
        StaysConsistent(codec, old(ldap.entries), ldap.entries, ldap.credentials, origin, registrations, sealed);
        Folded();
      }
      Did(Registered, ok);
    }

    method Enlist(host: string) returns (ok: bool)
      requires ldap.Valid()
      modifies this`failures, ldap`open, ldap`dials, ldap`failures, ldap`entries, ldap.masters
      ensures ldap.Valid() && AtMostAdded(old(ldap.entries), ldap.entries, host)
      ensures Servers(old(ldap.entries)) <= Servers(ldap.entries) <= Servers(old(ldap.entries)) + {host}
      ensures ok ==> host in Servers(ldap.entries) && host in RegistryOf(old(ldap.entries))
      ensures failures >= old(failures)
      ensures failures == old(failures) ==> (ok <==> host in RegistryOf(old(ldap.entries)))
    {
      hide *;
      ghost var dials, before := ldap.dials, ldap.failures;
      var failed := AddServiceInLdap(ldap, host);
      CountLdap(dials, before);
      ok := failed.None?;
    }

    /** Starting the daemon and waiting a minute for a leader, looking every quarter of a second. */
    method StartAndWait() returns (ok: bool)
      modifies this`failures, this`steps, agent
      ensures Progress(old(steps), steps, [LeaderElected], ok)
      ensures old(agent.polls) <= agent.polls && (ok <==> LeaderSeen(old(agent.polls), agent.polls))
      ensures |agent.polls| <= |old(agent.polls)| + 242
      ensures !ok && old(agent.polls) < agent.polls ==> agent.polls[|agent.polls| - 1].end > old(agent.now) + 60000
      ensures failures >= old(failures) && (ok <==> failures == old(failures))
    {
      ok := Try();
      if ok {
        var failed, polls := Polling.WaitForConsulLeader(agent, 250, 60000, 5000);
        ok := failed.None?;
        failures := failures + if LeaderSeen(old(agent.polls), agent.polls) then 0 else 1;
      }
      Did(LeaderElected, ok);
    }

    /** The host's own ACL token, created with the root token and then handed to the local agent. */
    method NodeToken(rootToken: string) returns (token: Option<string>)
      modifies this`failures, shell
      ensures token.Some? ==> TokenIssued(token.value, old(shell.creates), shell.creates)
      ensures token.Some? ==> shell.agentTokens == old(shell.agentTokens) + [(token.value, true)]
      ensures Polling.UsedOnly(old(shell.used), shell.used, rootToken)
      ensures failures >= old(failures) && (token.Some? <==> '\0' !in rootToken && failures == old(failures))
    {
      token := None;
      var created, creates := Polling.CreateACLToken(shell, rootToken);
      IssuedBy(created, old(shell.creates), creates);
      if '\0' !in rootToken {
        failures := failures + if LastIssued(creates) then 0 else 1;
      }
      if created.Ok? {
        var isSet := Polling.SetACLToken(shell, created.value, rootToken);
        failures := failures + if shell.agentTokens[|shell.agentTokens| - 1].1 then 0 else 1;
        token := if isSet then Some(created.value) else None;
      }
    }

    /** Starting the daemon, and the token calls with the secret of the bootstrap answer. */
    method Tokens(bootstrap: Bytes) returns (r: Option<(string, string)>)
      modifies this`failures, this`steps, shell
      ensures Progress(old(steps), steps, [TokenSet], r.Some?)
      ensures r.Some? ==> Readable(secretId, bootstrap) && secretId(bootstrap) == Some(r.value.0)
      ensures r.Some? ==> TokenIssued(r.value.1, old(shell.creates), shell.creates)
      ensures r.Some? ==> Polling.UsedOnly(old(shell.used), shell.used, r.value.0)
      ensures r.Some? ==> shell.agentTokens == old(shell.agentTokens) + [(r.value.1, true)]
      ensures failures >= old(failures) && (failures == old(failures) ==> (r.Some? <==> Readable(secretId, bootstrap)))
    {
      var rootToken := secretId(bootstrap);
      r := None;
      if rootToken.Some? {
        var nodeToken := NodeToken(rootToken.value);
        r := if nodeToken.Some? then Some((rootToken.value, nodeToken.value)) else None;
      }
      Did(TokenSet, r.Some?);
    }

    /**
     * performSetup, with what its commands and random source will produce in this run. Whatever fails, it has
     * registered itself with exactly these secrets or left the registry alone. Where nothing outside fails, it
     * succeeds exactly when the host has an entry and the bootstrap answer can be read.
     */
    method FirstSetup(host: string, home: string, password: string, made: Secrets, salt: nat)
      returns (r: Option<Installed>)
      requires Valid() && Servers(ldap.entries) == {}
      modifies this, ldap, ldap.masters, agent, shell
      ensures Valid() && AtMostAdded(old(ldap.entries), ldap.entries, host)
      ensures origin == None || origin == Some(made)
      ensures r.Some? ==> origin == Some(made) && IsInstalled(secretId, r.value, made)
      ensures r.Some? ==> host in Servers(ldap.entries) && host in configured && host in credentialFiles
      ensures r.Some? ==> sealed.Some? && sealed.value.password == password && sealed.value.home == home
      ensures r.Some? ==> ldap.credentials.Some?
      ensures r.Some? ==> LeaderSeen(old(agent.polls), agent.polls)
      ensures r.Some? ==> TokenIssued(r.value.nodeToken, old(shell.creates), shell.creates)
      ensures failures >= old(failures) && leaks >= old(leaks)
      ensures failures == old(failures) ==>
        (r.Some? <==> host in RegistryOf(old(ldap.entries)) && Readable(secretId, made.bootstrap))
      ensures failures == old(failures) && r.Some? ==> !sealed.value.tar.damaged
      ensures configured <= old(configured) + {host}
      ensures Progress(old(steps), steps, FIRST, r.Some?)
      ensures old(temps) <= temps <= old(temps) + (leaks - old(leaks))
    {
      hide *;
      r := None;
      ValidMeans();
      var announced := Announce(host, made);
      ghost var before := steps;
      if announced {
        r := Bootstrap(host, home, password, made, salt);
      }
      Onward(old(steps), before, steps, ANNOUNCE, BOOTSTRAP, announced, r.Some?);
      Parts();
    }

    /** From the host check to the registration. */
    method Announce(host: string, made: Secrets) returns (ok: bool)
      requires Valid() && Servers(ldap.entries) == {} && origin.None?
      modifies this`origin, this`registrations, this`configured, this`caKeys, this`failures, this`steps
      modifies ldap`open, ldap`dials, ldap`failures, ldap`entries, ldap.masters
      ensures Valid() && AtMostAdded(old(ldap.entries), ldap.entries, host)
      ensures origin == None || origin == Some(made)
      ensures ok ==> origin == Some(made) && host in Servers(ldap.entries) && host in configured
      ensures configured <= old(configured) + {host}
      ensures failures >= old(failures)
      ensures failures == old(failures) ==> (ok <==> host in RegistryOf(old(ldap.entries)))
      ensures Progress(old(steps), steps, ANNOUNCE, ok)
    {
      hide *;
      NothingAddedYet(host);
      var ready := CheckHost();
      ghost var s1 := steps;
      var authority := false;
      if ready {
        authority := Call(AuthorityMade);
      }
      ghost var s2 := steps;
      var generated := false;
      if authority {
        caKeys := caKeys + {host};
        generated := Generate(host);
      }
      ghost var s3 := steps;
      ok := false;
      if generated {
        ok := Register(host, made);
      }
      Fourfold(old(steps), s1, s2, s3, steps, [HostKnown, AddressChecked], [AuthorityMade], [Certified] + CONFIGURE,
               [Registered], ready, authority, generated, ok);
      Parts();
    }

    /** The point at which the first path becomes the first. */
    method Register(host: string, ghost made: Secrets) returns (ok: bool)
      requires Valid() && Servers(ldap.entries) == {}
      modifies this`origin, this`registrations, this`failures, this`steps
      modifies ldap`open, ldap`dials, ldap`failures, ldap`entries, ldap.masters
      ensures Valid() && AtMostAdded(old(ldap.entries), ldap.entries, host)
      ensures origin == if Servers(ldap.entries) == {} then None else Some(made)
      ensures Progress(old(steps), steps, [Registered], ok)
      ensures ok ==> host in Servers(ldap.entries) && host in RegistryOf(old(ldap.entries))
      ensures failures >= old(failures)
      ensures failures == old(failures) ==> (ok <==> host in RegistryOf(old(ldap.entries)))
    {
      hide *;
      Unfolded();
      ValidMeans();
      ok := AddService(host);
      BecomesConsistent(codec, old(ldap.entries), ldap.entries, ldap.credentials, registrations, sealed, made);
      if Servers(ldap.entries) != {} {
        origin, registrations := Some(made), registrations + 1;
      }
      Folded();
    }

    /** From the start of the daemon to the upload: leader, bootstrap, tokens, and only then the archive. */
    method Bootstrap(host: string, home: string, password: string, made: Secrets, salt: nat)
      returns (r: Option<Installed>)
      requires Valid() && origin == Some(made)
      modifies this`credentialFiles, this`temps, this`sealed, this`failures, this`leaks, this`steps
      modifies ldap`open, ldap`dials, ldap`failures, ldap`credentials, ldap.masters, agent, shell
      ensures Valid()
      ensures Progress(old(steps), steps, BOOTSTRAP, r.Some?)
      ensures r.Some? ==> IsInstalled(secretId, r.value, made) && host in credentialFiles && ldap.credentials.Some?
      ensures r.Some? ==> sealed.Some? && sealed.value.password == password && sealed.value.home == home
      ensures r.Some? || sealed != old(sealed) ==> LeaderSeen(old(agent.polls), agent.polls)
      ensures r.Some? ==> TokenIssued(r.value.nodeToken, old(shell.creates), shell.creates)
      ensures failures >= old(failures) && leaks >= old(leaks)
      ensures failures == old(failures) ==> (r.Some? <==> Readable(secretId, made.bootstrap))
      ensures failures == old(failures) && r.Some? ==> !sealed.value.tar.damaged
      ensures old(temps) <= temps <= old(temps) + (leaks - old(leaks))
    {
      hide *;
      r := None;
      var elected := StartAndWait();
      ghost var s1 := steps;
      var bootstrapped := false;
      if elected {
        bootstrapped := Call(AclBootstrapped);
      }
      ghost var s2 := steps;
      var tokens: Option<(string, string)> := None;
      if bootstrapped {
        tokens := Tokens(made.bootstrap);
      }
      ghost var s3 := steps;
      var uploaded := false;
      if tokens.Some? {
        uploaded := PackAndUpload(host, home, password, made, salt);
      }
      ghost var s4 := steps;
      if uploaded {
        var enabled := Call(Enabled);
        if enabled {
          InstalledAs(secretId, made, tokens.value.0, tokens.value.1);
          r := Some(Installed(made.gossip, made.ca, tokens.value.0, tokens.value.1));
        }
      }
      Fivefold(old(steps), s1, s2, s3, s4, steps, [LeaderElected], [AclBootstrapped], [TokenSet], HAND_ON, [Enabled],
               elected, bootstrapped, tokens.Some?, uploaded, r.Some?);
      Parts();
    }

    /** A temporary file for a secret, and its deferred removal. */
    method CreateTemp() returns (ok: bool)
      modifies this`temps, this`failures
      ensures temps == old(temps) + (if ok then 1 else 0) && failures == old(failures) + if ok then 0 else 1
    {
      ok := Try();
      temps := temps + if ok then 1 else 0;
    }

    method RemoveTemp() returns (ok: bool)
      requires temps > 0
      modifies this`temps, this`failures, this`leaks
      ensures temps == old(temps) - (if ok then 1 else 0) && failures == old(failures) + (if ok then 0 else 1)
      ensures leaks == old(leaks) + if ok then 0 else 1
    {
      ok := Try();
      temps, leaks := temps - (if ok then 1 else 0), leaks + if ok then 0 else 1;
    }

    /** An explicit removal. When it fails the caller gives up, and the deferred one is the second try. */
    method RemoveTempNow() returns (ok: bool)
      requires temps > 0
      modifies this`temps, this`failures, this`leaks
      ensures failures >= old(failures) && (ok <==> failures == old(failures))
      ensures ok ==> temps == old(temps) - 1 && leaks == old(leaks)
      ensures !ok ==>
        || (temps == old(temps) - 1 && leaks == old(leaks) + 1)
        || (temps == old(temps) && leaks == old(leaks) + 2)
    {
      ok := RemoveTemp();
      if !ok {
        var removed := RemoveTemp();
      }
    }

    /** The archive is packed from two temporary files and two of the Consul home, then uploaded. */
    method PackAndUpload(host: string, home: string, password: string, made: Secrets, salt: nat) returns (ok: bool)
      requires Valid() && origin == Some(made)
      modifies this`credentialFiles, this`temps, this`sealed, this`failures, this`leaks, this`steps
      modifies ldap`open, ldap`dials, ldap`failures, ldap`credentials, ldap.masters
      ensures Valid()
      ensures Progress(old(steps), steps, HAND_ON, ok)
      ensures ok ==> host in credentialFiles && ldap.credentials.Some?
      ensures ok ==> sealed.Some? && sealed.value.password == password && sealed.value.home == home
      ensures failures >= old(failures) && leaks >= old(leaks)
      ensures failures == old(failures) ==> ok && !sealed.value.tar.damaged
      ensures old(temps) <= temps <= old(temps) + (leaks - old(leaks))
    {
      hide *;
      ok := false;
      HandOnNotBegun(steps);
      var aclFile := CreateTemp();
      if aclFile {
        var gossipKeyFile := CreateTemp();
        if gossipKeyFile {
          ok := HandOn(host, home, password, made, salt);
          var gone := RemoveTemp();
        }
        var gone := RemoveTemp();
      }
    }

    /** createEncryptedSecret, the password file, and UploadCredentialsToLDAP. */
    method HandOn(host: string, home: string, password: string, made: Secrets, salt: nat) returns (ok: bool)
      requires Valid() && origin == Some(made)
      modifies this`credentialFiles, this`sealed, this`failures, this`steps
      modifies ldap`open, ldap`dials, ldap`failures, ldap`credentials, ldap.masters
      ensures Valid()
      ensures ok ==> host in credentialFiles && ldap.credentials.Some?
      ensures ok ==> sealed.Some? && sealed.value.password == password && sealed.value.home == home
      ensures failures >= old(failures) && (failures == old(failures) ==> ok && !sealed.value.tar.damaged)
      ensures Progress(old(steps), steps, HAND_ON, ok)
    {
      hide *;
      var content, p := Pack(host, home, password, made, salt);
      ghost var before := steps;
      ok := false;
      if content.Some? {
        ok := Upload(content.value, made, p);
      }
      Onward(old(steps), before, steps, [ArchiveMade] + [PasswordSaved], [Uploaded], content.Some?, ok);
      Parts();
    }

    /** The bytes of the credential file, and what they seal. An error on closing it goes unnoticed. */
    method Pack(host: string, home: string, password: string, made: Secrets, salt: nat)
      returns (r: Option<Bytes>, ghost p: Package)
      modifies this`credentialFiles, this`failures, this`steps
      ensures r.Some? ==> host in credentialFiles && Holds(codec, Base64.Encode(r.value), made, p)
      ensures p.password == password && p.home == home
      ensures failures >= old(failures) && (failures == old(failures) ==> r.Some? && !p.tar.damaged)
      ensures Progress(old(steps), steps, [ArchiveMade] + [PasswordSaved], r.Some?)
    {
      r, p := None, Package(password, salt, Tar([], false), home);
      var tar := MakeArchive(host, home, made);
      ghost var before := steps;
      if tar.Some? {
        var saved := Call(PasswordSaved);
        if saved {
          PackedSecrets(tar.value, home, made);
          r, p := Some(codec.seal(password, salt, tar.value)), Package(password, salt, tar.value, home);
        }
      }
      Onward(old(steps), before, steps, [ArchiveMade], [PasswordSaved], tar.Some?, r.Some?);
    }

    /** createEncryptedSecret, which makes the credential file before it can fail. */
    method MakeArchive(host: string, home: string, made: Secrets) returns (tar: Option<Tar>)
      modifies this`credentialFiles, this`failures, this`steps
      ensures tar.Some? ==> host in credentialFiles
      ensures tar.Some? ==>
        Packed(StoredName, tar.value.entries, FilesToCompress(home, made), FilesToCompress(home, made).Keys)
      ensures failures >= old(failures) && (failures == old(failures) ==> tar.Some? && !tar.value.damaged)
      ensures Progress(old(steps), steps, [ArchiveMade], tar.Some?)
    {
      tar := None;
      var created := Try();
      if created {
        credentialFiles := credentialFiles + {host};
        FilesAreWellNamed(home, made);
        var files := FilesToCompress(home, made);
        var readable: set<string>, closes: bool := *, *;
        tar := CreateEncryptedSecret(files, readable, closes);
        failures := failures + if files.Keys <= readable && closes then 0 else 1;
      }
      Did(ArchiveMade, tar.Some?);
    }

    /** UploadCredentialsToLDAP. */
    method Upload(content: Bytes, ghost made: Secrets, ghost p: Package) returns (ok: bool)
      requires Valid() && origin == Some(made) && Holds(codec, Base64.Encode(content), made, p)
      modifies this`sealed, this`failures, this`steps
      modifies ldap`open, ldap`dials, ldap`failures, ldap`credentials, ldap.masters
      ensures Valid()
      ensures ok ==> ldap.credentials.Some? && sealed == Some(p)
      ensures failures >= old(failures) && (ok <==> failures == old(failures))
      ensures Progress(old(steps), steps, [Uploaded], ok)
    {
      hide *;
      ok := Available(true);
      if ok {
        ok := Send(content, made, p);
      }
      Did(Uploaded, ok);
    }

    method Send(content: Bytes, ghost made: Secrets, ghost p: Package) returns (ok: bool)
      requires Valid() && origin == Some(made) && Holds(codec, Base64.Encode(content), made, p)
      modifies this`sealed, this`failures
      modifies ldap`open, ldap`dials, ldap`failures, ldap`credentials, ldap.masters
      ensures Valid()
      ensures ok ==> ldap.credentials.Some? && sealed == Some(p)
      ensures failures >= old(failures) && (ok <==> failures == old(failures))
    {
      ghost var dials, before := ldap.dials, ldap.failures;
      var failed := ldap.UploadBinary(content);
      CountLdap(dials, before);
      if ldap.credentials == Some(Base64.Encode(content)) {
        sealed := Some(p);
      }
      ok := failed.None?;
    }

    /** What a download yields is what was sealed, and where no call fails it is there exactly when something is. */
    method Download() returns (r: Option<Bytes>)
      requires Valid()
      modifies this`failures, ldap`open, ldap`dials, ldap`failures, ldap.masters
      ensures Valid()
      ensures r.Some? ==> ldap.credentials.Some? && origin.Some? && sealed.Some? && Sound(codec)
      ensures r.Some? ==> Packs(sealed.value.tar, origin.value) && NamedFor(sealed.value.tar, sealed.value.home)
      ensures r.Some? ==> r.value == codec.seal(sealed.value.password, sealed.value.salt, sealed.value.tar)
      ensures failures >= old(failures) && (failures == old(failures) ==> (r.Some? <==> ldap.credentials.Some?))
    {
      if ldap.credentials.Some? {
        UploadedIsSealed();
      }
      ghost var dials, before := ldap.dials, ldap.failures;
      var content := ldap.DownloadBinary();
      CountLdap(dials, before);
      return if content.Ok? then Some(content.value) else None;
    }

    /**
     * Download and extraction, as servers and agents both do it. Never any secrets but those of the first server;
     * once the download is there it fails exactly for a wrong password, a damaged archive or a home that does not
     * agree with that of the host that packed it.
     */
    method Fetch(host: string, home: string, password: string) returns (r: Result<Secrets, FetchError>)
      requires Valid()
      modifies this`credentialFiles, this`failures, this`steps, ldap`open, ldap`dials, ldap`failures, ldap.masters
      ensures Valid()
      ensures r.Ok? ==> origin == Some(r.value) && host in credentialFiles
      ensures r.Ok? || r.error.BadArchive? ==> ldap.credentials.Some?
      ensures r.Ok? || r.error.BadArchive? ==> (r.Ok? <==> Opens(sealed, password, home))
      ensures credentialFiles == old(credentialFiles) || credentialFiles == old(credentialFiles) + {host}
      ensures failures >= old(failures)
      ensures failures == old(failures) ==> (r == Err(Unavailable) <==> ldap.credentials.None?)
      ensures Progress(old(steps), steps, [Fetched], r.Ok?)
    {
      hide *;
      r := Err(Unavailable);
      var available := Available(false);
      var content: Option<Bytes> := None;
      if available {
        content := Download();
      }
      if content.Some? {
        var written := Try();
        if written {
          credentialFiles := credentialFiles + {host};
          ghost var p := sealed.value;
          var secrets := Extract(codec, content.value, password, home, p.password, p.salt, p.tar, origin.value, p.home);
          OpensMeans(sealed, password, home);
          r := match secrets case Err(error) => Err(BadArchive(error)) case Ok(s) => Ok(s);
        }
      }
      Did(Fetched, r.Ok?);
    }

    /** The server's host check and the secrets, without the reason of a failure. */
    method FetchedSecrets(host: string, home: string, password: string) returns (r: Option<Secrets>)
      requires Valid()
      modifies this`credentialFiles, this`failures, this`steps, ldap`open, ldap`dials, ldap`failures, ldap.masters
      ensures Valid()
      ensures r.Some? ==> origin == r && ldap.credentials.Some? && host in credentialFiles
      ensures r.Some? ==> Opens(sealed, password, home)
      ensures failures >= old(failures)
      ensures failures == old(failures) ==> (r.Some? <==> ldap.credentials.Some? && Opens(sealed, password, home))
      ensures Progress(old(steps), steps, [HostKnown, AddressChecked] + [Fetched], r.Some?)
    {
      hide *;
      r := None;
      var ready := CheckHost();
      ghost var before := steps;
      if ready {
        var secrets := Fetch(host, home, password);
        r := if secrets.Ok? then Some(secrets.value) else None;
      }
      Onward(old(steps), before, steps, [HostKnown, AddressChecked], [Fetched], ready, r.Some?);
    }

    /** The same on an agent, which checks its address only later. */
    method AgentSecrets(host: string, home: string, password: string) returns (r: Option<Secrets>)
      requires Valid()
      modifies this`credentialFiles, this`failures, this`steps, ldap`open, ldap`dials, ldap`failures, ldap.masters
      ensures Valid()
      ensures r.Some? ==> origin == r && ldap.credentials.Some? && host in credentialFiles
      ensures r.Some? ==> Opens(sealed, password, home)
      ensures failures >= old(failures)
      ensures failures == old(failures) ==> (r.Some? <==> ldap.credentials.Some? && Opens(sealed, password, home))
      ensures Progress(old(steps), steps, [HostKnown] + [Fetched], r.Some?)
    {
      hide *;
      r := None;
      var ready := KnowHost();
      ghost var before := steps;
      if ready {
        var secrets := Fetch(host, home, password);
        r := if secrets.Ok? then Some(secrets.value) else None;
      }
      Onward(old(steps), before, steps, [HostKnown], [Fetched], ready, r.Some?);
    }

    /**
     * importSetup. It registers its host only once it holds the first server's secrets. The CA key it writes is gone
     * again on every return, unless writing or removing it failed. Where nothing outside fails, it succeeds exactly
     * when the host has an entry, the archive opens for it and the root token can be read.
     */
    method ImportSetup(host: string, password: string) returns (r: Option<Installed>)
      requires Valid()
      modifies this`configured, this`credentialFiles, this`caKeys, this`failures, this`leaks, this`steps
      modifies ldap`open, ldap`dials, ldap`failures, ldap`entries, ldap.masters, shell
      ensures Valid() && AtMostAdded(old(ldap.entries), ldap.entries, host)
      ensures r.Some? ==> origin.Some? && IsInstalled(secretId, r.value, origin.value)
      ensures r.Some? ==> ldap.credentials.Some? && Opens(sealed, password, importHome)
      ensures r.Some? ==> TokenIssued(r.value.nodeToken, old(shell.creates), shell.creates)
      ensures r.Some? ==> host in Servers(ldap.entries) && host in configured && host in credentialFiles
      ensures ldap.credentials.None? || !Opens(sealed, password, importHome) ==> ldap.entries == old(ldap.entries)
      ensures configured <= old(configured) + {host}
      ensures KeyGone(host, old(caKeys), caKeys, old(leaks), leaks, r.Some?)
      ensures failures >= old(failures) && leaks >= old(leaks)
      ensures failures == old(failures) ==>
        (r.Some? <==> ldap.credentials.Some? && Opens(sealed, password, importHome)
                      && host in RegistryOf(old(ldap.entries)) && Readable(secretId, origin.value.bootstrap))
      ensures Progress(old(steps), steps, IMPORT, r.Some?)
    {
      hide *;
      r := None;
      NothingAddedYet(host);
      KeyUntouched(host, caKeys, leaks);
      var secrets := FetchedSecrets(host, importHome, password);
      ghost var s1 := steps;
      var caSaved := false;
      if secrets.Some? {
        caSaved := Call(CaSaved);
      }
      ghost var s2 := steps;
      if caSaved {
        r := JoinWithKey(host, secrets.value);
      }
      Threefold(old(steps), s1, s2, steps, [HostKnown, AddressChecked] + [Fetched], [CaSaved], [KeyWritten] + JOIN,
                secrets.Some?, caSaved, r.Some?);
      Parts();
    }

    method JoinWithKey(host: string, s: Secrets) returns (r: Option<Installed>)
      requires Valid() && origin == Some(s)
      modifies this`configured, this`caKeys, this`failures, this`leaks, this`steps
      modifies ldap`open, ldap`dials, ldap`failures, ldap`entries, ldap.masters, shell
      ensures Valid() && AtMostAdded(old(ldap.entries), ldap.entries, host)
      ensures r.Some? ==> IsInstalled(secretId, r.value, s)
      ensures r.Some? ==> TokenIssued(r.value.nodeToken, old(shell.creates), shell.creates)
      ensures r.Some? ==> host in Servers(ldap.entries) && host in configured
      ensures configured <= old(configured) + {host}
      ensures KeyGone(host, old(caKeys), caKeys, old(leaks), leaks, r.Some?)
      ensures failures >= old(failures) && leaks >= old(leaks)
      ensures failures == old(failures) ==>
        (r.Some? <==> host in RegistryOf(old(ldap.entries)) && Readable(secretId, s.bootstrap))
      ensures Progress(old(steps), steps, [KeyWritten] + JOIN, r.Some?)
    {
      r := None;
      NothingAddedYet(host);
      var keyWritten := WriteCaKey(host);
      Did(KeyWritten, keyWritten);
      ghost var before := steps;
      if keyWritten {
        r := Join(host, s);
        var removed := RemoveCaKey(host);
      }
      Onward(old(steps), before, steps, [KeyWritten], JOIN, keyWritten, r.Some?);
    }

    /** A write that fails may leave a part of the key, and nothing removes it then. */
    method WriteCaKey(host: string) returns (ok: bool)
      modifies this`caKeys, this`failures, this`leaks
      ensures caKeys == old(caKeys) || caKeys == old(caKeys) + {host}
      ensures leaks >= old(leaks) && (!ok && leaks == old(leaks) ==> caKeys == old(caKeys))
      ensures ok ==> leaks == old(leaks)
      ensures failures == old(failures) + if ok then 0 else 1
    {
      var part: bool := *;
      ok := Try();
      if ok || part {
        caKeys := caKeys + {host};
      }
      leaks := leaks + if !ok && part then 1 else 0;
    }

    method RemoveCaKey(host: string) returns (ok: bool)
      modifies this`caKeys, this`failures, this`leaks
      ensures caKeys == if ok then old(caKeys) - {host} else old(caKeys)
      ensures failures == old(failures) + (if ok then 0 else 1) && leaks == old(leaks) + if ok then 0 else 1
    {
      ok := Try();
      if ok {
        caKeys := caKeys - {host};
      }
      leaks := leaks + if ok then 0 else 1;
    }

    /** The import path while the CA key is on disk: certificate, configuration, registration, start and tokens. */
    method Join(host: string, s: Secrets) returns (r: Option<Installed>)
      requires Valid() && origin == Some(s)
      modifies this`configured, this`failures, this`steps
      modifies ldap`open, ldap`dials, ldap`failures, ldap`entries, ldap.masters, shell
      ensures Valid() && AtMostAdded(old(ldap.entries), ldap.entries, host)
      ensures r.Some? ==> IsInstalled(secretId, r.value, s)
      ensures r.Some? ==> TokenIssued(r.value.nodeToken, old(shell.creates), shell.creates)
      ensures r.Some? ==> host in Servers(ldap.entries) && host in configured
      ensures configured <= old(configured) + {host}
      ensures failures >= old(failures)
      ensures failures == old(failures) ==>
        (r.Some? <==> host in RegistryOf(old(ldap.entries)) && Readable(secretId, s.bootstrap))
      ensures Progress(old(steps), steps, JOIN, r.Some?)
    {
      hide *;
      r := None;
      NothingAddedYet(host);
      var generated := Generate(host);
      ghost var s1 := steps;
      var added := false;
      if generated {
        added := AddService(host);
      }
      ghost var s2 := steps;
      var used: Option<Installed> := None;
      if added {
        used := UseSecrets(s);
      }
      ghost var s3 := steps;
      var saved := false;
      if used.Some? {
        saved := Call(PasswordSaved);
      }
      ghost var s4 := steps;
      if saved {
        var enabled := Call(Enabled);
        r := if enabled then used else None;
      }
      Fivefold(old(steps), s1, s2, s3, s4, steps, [Certified] + CONFIGURE, [Registered], [Started, TokenSet],
               [PasswordSaved], [Enabled], generated, added, used.Some?, saved, r.Some?);
      Parts();
    }

    /** Starting the daemon, and the tokens. */
    method UseSecrets(s: Secrets) returns (r: Option<Installed>)
      modifies this`failures, this`steps, shell
      ensures r.Some? ==> IsInstalled(secretId, r.value, s)
      ensures r.Some? ==> TokenIssued(r.value.nodeToken, old(shell.creates), shell.creates)
      ensures failures >= old(failures)
      ensures failures == old(failures) ==> (r.Some? <==> Readable(secretId, s.bootstrap))
      ensures Progress(old(steps), steps, [Started, TokenSet], r.Some?)
    {
      hide *;
      r := None;
      var started := Call(Started);
      ghost var before := steps;
      if started {
        var tokens := Tokens(s.bootstrap);
        if tokens.Some? {
          InstalledAs(secretId, s, tokens.value.0, tokens.value.1);
          r := Some(Installed(s.gossip, s.ca, tokens.value.0, tokens.value.1));
        }
      }
      Onward(old(steps), before, steps, [Started], [TokenSet], started, r.Some?);
      assert [Started] + [TokenSet] == [Started, TokenSet];
    }

    /**
     * The agent's setup: its own home in the lookup, and no registration. The temporary CA key is left only where a
     * removal failed, and never by a success.
     */
    method AgentSetup(host: string, home: string, password: string) returns (r: Option<Installed>)
      requires Valid()
      modifies this`configured, this`credentialFiles, this`temps, this`failures, this`leaks, this`steps
      modifies ldap`open, ldap`dials, ldap`failures, ldap.masters, shell
      ensures Valid()
      ensures r.Some? ==> origin.Some? && IsInstalled(secretId, r.value, origin.value) && host in configured
      ensures r.Some? ==> ldap.credentials.Some? && Opens(sealed, password, home) && temps == old(temps)
      ensures configured <= old(configured) + {host}
      ensures r.Some? ==> TokenIssued(r.value.nodeToken, old(shell.creates), shell.creates)
      ensures failures >= old(failures) && leaks >= old(leaks)
      ensures failures == old(failures) ==>
        (r.Some? <==> host !in old(configured) && ldap.credentials.Some? && Opens(sealed, password, home)
                      && Readable(secretId, origin.value.bootstrap))
      ensures Progress(old(steps), steps, AGENT, r.Some?)
      ensures old(temps) <= temps <= old(temps) + (leaks - old(leaks))
    {
      hide *;
      r := None;
      var ran := Call(Allowed);
      ghost var s1 := steps;
      NotBegun(s1, [HostKnown] + [Fetched]);
      var secrets: Option<Secrets> := None;
      if ran && host !in configured {
        secrets := AgentSecrets(host, home, password);
      }
      ghost var s2 := steps;
      if secrets.Some? {
        r := InstallAgent(host, secrets.value);
      }
      Threefold(old(steps), s1, s2, steps, [Allowed], [HostKnown] + [Fetched], INSTALL, ran, secrets.Some?, r.Some?);
      Parts();
    }

    /** The agent with the secrets in hand: client certificate, configuration, start and tokens. */
    method InstallAgent(host: string, s: Secrets) returns (r: Option<Installed>)
      modifies this`configured, this`temps, this`failures, this`leaks, this`steps, shell
      ensures r.Some? ==> IsInstalled(secretId, r.value, s) && host in configured && temps == old(temps)
      ensures configured <= old(configured) + {host}
      ensures r.Some? ==> TokenIssued(r.value.nodeToken, old(shell.creates), shell.creates)
      ensures failures >= old(failures) && leaks >= old(leaks)
      ensures failures == old(failures) ==> (r.Some? <==> Readable(secretId, s.bootstrap))
      ensures Progress(old(steps), steps, INSTALL, r.Some?)
      ensures old(temps) <= temps <= old(temps) + (leaks - old(leaks))
    {
      hide *;
      r := None;
      var certified := CertifyAgent();
      ghost var s1 := steps;
      var checked := false;
      if certified {
        checked := Call(AddressChecked);
      }
      ghost var s2 := steps;
      var configuredNow := false;
      if checked {
        configuredNow := Configure(host);
      }
      ghost var s3 := steps;
      var used: Option<Installed> := None;
      if configuredNow {
        used := UseSecrets(s);
      }
      ghost var s4 := steps;
      if used.Some? {
        var enabled := Call(Enabled);
        r := if enabled then used else None;
      }
      Fivefold(old(steps), s1, s2, s3, s4, steps, [CaSaved] + KEY, [AddressChecked], CONFIGURE, [Started, TokenSet],
               [Enabled], certified, checked, configuredNow, used.Some?, r.Some?);
      Parts();
    }

    /** The CA on disk, and the client certificate made with its key in a temporary file. */
    method CertifyAgent() returns (ok: bool)
      modifies this`temps, this`failures, this`leaks, this`steps
      ensures ok ==> temps == old(temps)
      ensures failures >= old(failures) && leaks >= old(leaks) && (ok <==> failures == old(failures))
      ensures Progress(old(steps), steps, [CaSaved] + KEY, ok)
      ensures old(temps) <= temps <= old(temps) + (leaks - old(leaks))
    {
      hide *;
      KeyNotBegun(steps);
      var saved := Call(CaSaved);
      ghost var before := steps;
      KeyNotBegun(steps);
      ok := false;
      if saved {
        var caKeyFile := CreateTemp();
        if caKeyFile {
          ok := CertifyWithKey();
        }
      }
      Onward(old(steps), before, steps, [CaSaved], KEY, saved, ok);
    }

    /** With the temporary file there: it is removed as soon as the certificate is made, or on the way out. */
    method CertifyWithKey() returns (ok: bool)
      requires temps > 0
      modifies this`temps, this`failures, this`leaks, this`steps
      ensures ok ==> temps == old(temps) - 1
      ensures failures >= old(failures) && leaks >= old(leaks) && (ok <==> failures == old(failures))
      ensures Progress(old(steps), steps, KEY, ok)
      ensures old(temps) - 1 <= temps <= old(temps) - 1 + (leaks - old(leaks))
    {
      hide *;
      ok := false;
      var written := Call(KeyWritten);
      ghost var s1 := steps;
      var certified := false;
      if written {
        certified := Call(Certified);
      }
      ghost var s2 := steps;
      if certified {
        ok := RemoveTempNow();
        Did(KeyRemoved, ok);
      } else {
        var removed := RemoveTemp();
      }
      Onward(old(steps), s1, s2, [KeyWritten], [Certified], written, certified);
      Onward(old(steps), s2, steps, [KeyWritten] + [Certified], [KeyRemoved], certified, ok);
      Parts();
    }

    /**
     * Run without the flag that forces the first path. Where nothing outside fails, it succeeds exactly when the host
     * is not configured, has an entry, and its path finds what it needs.
     */
    method ServerSetup(host: string, home: string, password: string, made: Secrets, salt: nat)
      returns (r: Option<Installed>)
      requires Valid()
      modifies this, ldap, ldap.masters, agent, shell
      ensures Valid() && AtMostAdded(old(ldap.entries), ldap.entries, host)
      ensures origin == old(origin) || (old(origin).None? && origin == Some(made))
      ensures r.Some? ==> origin.Some? && IsInstalled(secretId, r.value, origin.value)
      ensures r.Some? ==> TokenIssued(r.value.nodeToken, old(shell.creates), shell.creates)
      ensures r.Some? ==> host in Servers(ldap.entries) && host in configured && host in credentialFiles
      ensures r.Some? ==> ldap.credentials.Some?
      ensures r.Some? && old(origin).Some? ==> Opens(sealed, password, importHome)
      ensures r.Some? && old(origin).None? ==>
        origin == Some(made) && sealed.Some? && sealed.value.password == password && sealed.value.home == home
      ensures r.Some? && old(origin).None? && failures == old(failures) ==> !sealed.value.tar.damaged
      ensures configured <= old(configured) + {host}
      ensures host in old(configured) ==> r.None? && origin == old(origin) && ldap.entries == old(ldap.entries)
      ensures old(origin).Some? ==> ldap.credentials == old(ldap.credentials) && sealed == old(sealed)
      ensures failures >= old(failures) && leaks >= old(leaks)
      ensures failures == old(failures) ==>
        (r.Some? <==> host !in old(configured) && host in RegistryOf(old(ldap.entries))
                      && if old(origin).None? then host !in old(credentialFiles) && Readable(secretId, made.bootstrap)
                         else && ldap.credentials.Some? && Opens(sealed, password, importHome)
                              && Readable(secretId, origin.value.bootstrap))
      ensures Progress(old(steps), steps,
                       [Allowed] + [PathChosen] + PathSteps(host, old(credentialFiles), old(ldap.entries)), r.Some?)
      ensures old(temps) <= temps <= old(temps) + (leaks - old(leaks))
    {
      hide *;
      r := None;
      NothingAddedYet(host);
      ValidMeans();
      var ran := Call(Allowed);
      ghost var s1 := steps;
      NotBegun(s1, [PathChosen]);
      var first: Option<bool> := None;
      if ran && host !in configured {
        first := IsFirstInstance(host);
        Did(PathChosen, first.Some?);
      }
      ghost var s2 := steps;
      if first == Some(true) {
        r := FirstSetup(host, home, password, made, salt);
      } else if first == Some(false) {
        r := ImportSetup(host, password);
      }
      PathIs(host, old(credentialFiles), old(ldap.entries));
      Threefold(old(steps), s1, s2, steps, [Allowed], [PathChosen],
                PathSteps(host, old(credentialFiles), old(ldap.entries)), ran, first.Some?, r.Some?);
    }

    /** The way of a host into a cluster that has servers or has none. */
    lemma PathIs(host: string, files: set<string>, entries: seq<ServerEntry>)
      ensures PathSteps(host, files, entries) == if host !in files && Servers(entries) == {} then FIRST else IMPORT
    {
    }

    /** Somebody clears a host by hand before the next try. */
    method Reset(host: string)
      requires Valid()
      modifies this`configured, this`credentialFiles, this`caKeys
      ensures Valid()
      ensures configured == old(configured) - {host} && caKeys == old(caKeys) - {host}
      ensures credentialFiles == old(credentialFiles) || credentialFiles == old(credentialFiles) - {host}
    {
      configured, caKeys := configured - {host}, caKeys - {host};
      var all: bool := *;
      if all {
        credentialFiles := credentialFiles - {host};
      }
    }

    /** One action. Where nothing outside fails, what it finds decides whether it succeeds. */
    method Act(action: Action) returns (r: Option<Installed>)
      requires Valid()
      modifies this, ldap, ldap.masters, agent, shell
      ensures Valid()
      ensures ActsAs(secretId, action, r, old(origin), origin, Servers(old(ldap.entries)), Servers(ldap.entries))
      ensures r.Some? ==> ldap.credentials.Some? && Joined(action, importHome, old(origin), origin, sealed)
      ensures old(origin).Some? ==> ldap.credentials == old(ldap.credentials) && sealed == old(sealed)
      ensures leaks >= old(leaks) && old(temps) <= temps <= old(temps) + (leaks - old(leaks))
      ensures configured <= old(configured) + {action.host}
      ensures RegistryOf(ldap.entries).Keys == RegistryOf(old(ldap.entries)).Keys
      ensures failures >= old(failures)
      ensures failures == old(failures) ==>
        (r.Some? <==> CanSucceed(secretId, action, importHome, old(configured), old(credentialFiles),
                                 RegistryOf(old(ldap.entries)).Keys, old(ldap.credentials).Some?, old(origin),
                                 old(sealed)))
      ensures failures == old(failures) && r.Some? && old(origin).None? ==>
        IsFirst(action, origin, sealed) && !sealed.value.tar.damaged
    {
      r := None;
      match action {
        case Server(host, home, password, made, salt) =>
          r := ServerSetup(host, home, password, made, salt);
          ServersAfter(old(ldap.entries), ldap.entries, host);
          HostsStay(old(ldap.entries), ldap.entries, host);
        case Agent(host, home, password) =>
          r := AgentSetup(host, home, password);
        case Reset(host) =>
          Reset(host);
      }
    }
  }

  /** What decides, where nothing outside fails: the files on the host, its LDAP entry, and the uploaded archive. */
  ghost predicate CanSucceed(secretId: Bytes -> Option<string>, action: Action, importHome: string,
                             configured: set<string>, credentialFiles: set<string>, hosts: set<string>,
                             uploaded: bool, origin: Option<Secrets>, sealed: Option<Package>)
  {
    match action
    case Server(host, _, password, made, _) =>
      && host !in configured && host in hosts
      && if origin.None? then host !in credentialFiles && Readable(secretId, made.bootstrap)
         else uploaded && Opens(sealed, password, importHome) && Readable(secretId, origin.value.bootstrap)
    case Agent(host, home, password) =>
      && host !in configured && uploaded && origin.Some? && Opens(sealed, password, home)
      && Readable(secretId, origin.value.bootstrap)
    case Reset(_) => false
  }

  /** The action made the secrets, and its archive is what is uploaded. */
  ghost predicate IsFirst(action: Action, origin: Option<Secrets>, sealed: Option<Package>) {
    && action.Server? && origin == Some(action.made)
    && sealed.Some? && sealed.value.password == action.password && sealed.value.home == action.home
  }

  /** What one action did to the first server's secrets and to the set of registered servers. */
  ghost predicate ActsAs(secretId: Bytes -> Option<string>, action: Action, r: Option<Installed>,
                         origin: Option<Secrets>, origin': Option<Secrets>, servers: set<string>, servers': set<string>)
  {
    && servers <= servers'
    && (origin' == origin || (origin.None? && action.Server? && origin' == Some(action.made)))
    && (r.Some? ==> origin'.Some? && IsInstalled(secretId, r.value, origin'.value))
    && (r.Some? && action.Server? ==> action.host in servers')
  }

  /**
   * How a setup succeeded: by opening the first server's archive with its password and home, or as the first server
   * itself.
   */
  ghost predicate Joined(action: Action, importHome: string, origin: Option<Secrets>, origin': Option<Secrets>,
                         sealed: Option<Package>)
  {
    match action
    case Server(_, _, password, _, _) =>
      Opens(sealed, password, importHome) || (origin.None? && IsFirst(action, origin', sealed))
    case Agent(_, home, password) => Opens(sealed, password, home)
    case Reset(_) => false
  }

  /** The first server is an earlier one or made its secrets in one of the actions, and all successes share them. */
  ghost predicate RolledOut(secretId: Bytes -> Option<string>, actions: seq<Action>, results: seq<Option<Installed>>,
                            start: Option<Secrets>, origin: Option<Secrets>, servers: set<string>)
  {
    && |results| <= |actions|
    && (origin == start
        || (start.None? && origin.Some?
            && exists i :: 0 <= i < |results| && actions[i].Server? && actions[i].made == origin.value))
    && forall i :: 0 <= i < |results| && results[i].Some? ==>
         && origin.Some? && IsInstalled(secretId, results[i].value, origin.value)
         && (actions[i].Server? ==> actions[i].host in servers)
  }

  /** Every success opened the archive as it is, or was the first server's. */
  ghost predicate AllJoined(actions: seq<Action>, results: seq<Option<Installed>>, importHome: string,
                            start: Option<Secrets>, origin: Option<Secrets>, sealed: Option<Package>)
  {
    && |results| <= |actions|
    && forall i :: 0 <= i < |results| && results[i].Some? ==> Joined(actions[i], importHome, start, origin, sealed)
  }

  lemma RollsOn(secretId: Bytes -> Option<string>, actions: seq<Action>, results: seq<Option<Installed>>,
                r: Option<Installed>, start: Option<Secrets>, origin: Option<Secrets>, origin': Option<Secrets>,
                servers: set<string>, servers': set<string>)
    requires RolledOut(secretId, actions, results, start, origin, servers) && |results| < |actions|
    requires ActsAs(secretId, actions[|results|], r, origin, origin', servers, servers')
    ensures RolledOut(secretId, actions, results + [r], start, origin', servers')
  {
    if origin' != start && origin' == origin {
      var i :| 0 <= i < |results| && actions[i].Server? && actions[i].made == origin.value;
      assert i < |results + [r]|;
    } else if origin' != start {
      assert actions[|results|].made == origin'.value;
    }
  }

  lemma JoinsOn(actions: seq<Action>, results: seq<Option<Installed>>, r: Option<Installed>, importHome: string,
                start: Option<Secrets>, origin: Option<Secrets>, origin': Option<Secrets>, sealed: Option<Package>,
                sealed': Option<Package>)
    requires AllJoined(actions, results, importHome, start, origin, sealed) && |results| < |actions|
    requires start.Some? ==> origin == start
    requires if origin.Some? then origin' == origin && sealed' == sealed else NoneYet(results)
    requires r.Some? ==> Joined(actions[|results|], importHome, origin, origin', sealed')
    ensures AllJoined(actions, results + [r], importHome, start, origin', sealed')
  {
  }

  // ---- A whole rollout in which nothing fails

  /**
   * A first server and any others after it, each on a host of its own that has never been set up: one password, a
   * home from which the first server's files are found, and an LDAP entry for every server.
   */
  ghost predicate Prepared(secretId: Bytes -> Option<string>, actions: seq<Action>, importHome: string,
                           configured: set<string>, credentialFiles: set<string>, hosts: set<string>)
  {
    && (actions != [] ==>
          actions[0].Server? && actions[0].host !in credentialFiles && Readable(secretId, actions[0].made.bootstrap))
    && forall i :: 0 <= i < |actions| ==>
         && !actions[i].Reset? && actions[i].host !in configured && actions[i].password == actions[0].password
         && (actions[i].Server? ==> actions[i].host in hosts)
         && (i > 0 ==> HomesAgree(if actions[i].Server? then importHome else actions[i].home, actions[0].home))
         && (forall j :: 0 <= j < i ==> actions[j].host != actions[i].host)
  }

  /** All have succeeded so far, and what is uploaded is the first one's. */
  ghost predicate OnCourse(actions: seq<Action>, results: seq<Option<Installed>>, start: set<string>,
                           configured: set<string>, uploaded: bool, origin: Option<Secrets>, sealed: Option<Package>)
  {
    && |results| <= |actions|
    && (forall h :: h in configured ==> h in start || exists i :: 0 <= i < |results| && actions[i].host == h)
    && (forall i :: 0 <= i < |results| ==> results[i].Some?)
    && if results == [] then origin.None?
       else uploaded && IsFirst(actions[0], origin, sealed) && !sealed.value.tar.damaged
  }

  lemma NextCanSucceed(secretId: Bytes -> Option<string>, actions: seq<Action>, results: seq<Option<Installed>>,
                       importHome: string, start: set<string>, configured: set<string>, startFiles: set<string>,
                       credentialFiles: set<string>, hosts: set<string>, uploaded: bool, origin: Option<Secrets>,
                       sealed: Option<Package>)
    requires Prepared(secretId, actions, importHome, start, startFiles, hosts) && |results| < |actions|
    requires OnCourse(actions, results, start, configured, uploaded, origin, sealed)
    requires results == [] ==> credentialFiles == startFiles
    ensures CanSucceed(secretId, actions[|results|], importHome, configured, credentialFiles, hosts, uploaded, origin,
                       sealed)
  {
    var n := |results|;
    assert forall i :: 0 <= i < n ==> actions[i].host != actions[n].host;
  }

  lemma StaysOnCourse(actions: seq<Action>, results: seq<Option<Installed>>, r: Option<Installed>, start: set<string>,
                      configured: set<string>, configured': set<string>, uploaded: bool, uploaded': bool,
                      origin: Option<Secrets>, origin': Option<Secrets>, sealed: Option<Package>,
                      sealed': Option<Package>)
    requires OnCourse(actions, results, start, configured, uploaded, origin, sealed)
    requires |results| < |actions| && r.Some? && configured' <= configured + {actions[|results|].host}
    requires origin.Some? ==> origin' == origin && sealed' == sealed && uploaded' == uploaded
    requires origin.None? ==>
      uploaded' && IsFirst(actions[|results|], origin', sealed') && !sealed'.value.tar.damaged
    ensures OnCourse(actions, results + [r], start, configured', uploaded', origin', sealed')
  {
    forall h | h in configured'
      ensures h in start || exists i :: 0 <= i < |results + [r]| && actions[i].host == h
    {
      if h in configured && h !in start {
        var i :| 0 <= i < |results| && actions[i].host == h;
        assert i < |results + [r]|;
      }
    }
  }

  lemma OnCourseStarts(actions: seq<Action>, start: set<string>, uploaded: bool, origin: Option<Secrets>,
                       sealed: Option<Package>)
    ensures origin.None? ==> OnCourse(actions, [], start, start, uploaded, origin, sealed)
  {
  }

  lemma OnCourseMeans(actions: seq<Action>, results: seq<Option<Installed>>, start: set<string>,
                      configured: set<string>, uploaded: bool, origin: Option<Secrets>, sealed: Option<Package>)
    ensures OnCourse(actions, results, start, configured, uploaded, origin, sealed) ==>
      && (forall i :: 0 <= i < |results| ==> results[i].Some?)
      && (origin.None? ==> results == [])
  {
  }

  // ---- Any rollout

  /**
   * Any sequence of unforced setups, failing anywhere and with hosts cleared in between: at most one first-path setup
   * ever registers itself, every server and agent that succeeds ends with the gossip key, CA and root token which
   * that setup made, and every server that succeeds stays registered. All but the first server open its archive with
   * its password and an agreeing home: so after a first server that failed between registering itself and its upload,
   * or whose archive is damaged, no later setup of any host succeeds. But on prepared hosts, where nothing outside
   * fails, all of them do. No temporary file with a secret is left whose removal works.
   */
  method Rollout(cluster: Cluster, actions: seq<Action>) returns (results: seq<Option<Installed>>)
    requires cluster.Valid()
    modifies cluster, cluster.ldap, cluster.ldap.masters, cluster.agent, cluster.shell
    ensures cluster.Valid() && cluster.registrations <= 1
    ensures |results| == |actions|
    ensures RolledOut(cluster.secretId, actions, results, old(cluster.origin), cluster.origin,
                      Servers(cluster.ldap.entries))
    ensures AllJoined(actions, results, cluster.importHome, old(cluster.origin), cluster.origin, cluster.sealed)
    ensures old(cluster.origin).Some? ==>
      cluster.sealed == old(cluster.sealed) && cluster.ldap.credentials == old(cluster.ldap.credentials)
    ensures cluster.ldap.credentials.None? ==> NoneYet(results)
    ensures old(cluster.origin).Some? && old(cluster.sealed).Some? && old(cluster.sealed).value.tar.damaged ==>
      NoneYet(results)
    ensures
      (&& old(cluster.origin).None? && cluster.failures == old(cluster.failures)
       && Prepared(cluster.secretId, actions, cluster.importHome, old(cluster.configured), old(cluster.credentialFiles),
                   RegistryOf(old(cluster.ldap.entries)).Keys)) ==>
      forall i :: 0 <= i < |results| ==> results[i].Some?
    ensures cluster.temps <= old(cluster.temps) + (cluster.leaks - old(cluster.leaks))
  {
    hide *;
    results := [];
    ghost var configured, files := cluster.configured, cluster.credentialFiles;
    ghost var hosts := RegistryOf(cluster.ldap.entries).Keys;
    ghost var prepared := cluster.origin.None?
      && Prepared(cluster.secretId, actions, cluster.importHome, configured, files, hosts);
    OnCourseStarts(actions, configured, cluster.ldap.credentials.Some?, cluster.origin, cluster.sealed);
    ghost var start, uploaded, credentials := cluster.origin, cluster.sealed, cluster.ldap.credentials;
    NothingYet(cluster.secretId, actions, cluster.importHome, start, uploaded, Servers(cluster.ldap.entries));
    cluster.ValidMeans();
    for i := 0 to |actions|
      invariant cluster.Valid() && |results| == i
      invariant RolledOut(cluster.secretId, actions, results, start, cluster.origin, Servers(cluster.ldap.entries))
      invariant AllJoined(actions, results, cluster.importHome, start, cluster.origin, cluster.sealed)
      invariant start.Some? ==>
        cluster.origin == start && cluster.sealed == uploaded && cluster.ldap.credentials == credentials
      invariant cluster.ldap.credentials.None? || cluster.origin.None? ==> NoneYet(results)
      invariant cluster.failures >= old(cluster.failures) && RegistryOf(cluster.ldap.entries).Keys == hosts
      invariant results == [] ==> cluster.credentialFiles == files
      invariant prepared && cluster.failures == old(cluster.failures) ==>
        OnCourse(actions, results, configured, cluster.configured, cluster.ldap.credentials.Some?, cluster.origin,
                 cluster.sealed)
      invariant cluster.leaks >= old(cluster.leaks)
      invariant cluster.temps <= old(cluster.temps) + (cluster.leaks - old(cluster.leaks))
    {
      ghost var origin, sealed, servers := cluster.origin, cluster.sealed, Servers(cluster.ldap.entries);
      ghost var ready, there, failures := cluster.configured, cluster.ldap.credentials.Some?, cluster.failures;
      if prepared && failures == old(cluster.failures) {
        OnCourseMeans(actions, results, configured, ready, there, origin, sealed);
        NextCanSucceed(cluster.secretId, actions, results, cluster.importHome, configured, ready, files,
                       cluster.credentialFiles, hosts, there, origin, sealed);
      }
      var r := cluster.Act(actions[i]);
      if prepared && cluster.failures == old(cluster.failures) {
        StaysOnCourse(actions, results, r, configured, ready, cluster.configured, there,
                      cluster.ldap.credentials.Some?, origin, cluster.origin, sealed, cluster.sealed);
      }
      RollsOn(cluster.secretId, actions, results, r, start, origin, cluster.origin, servers,
              Servers(cluster.ldap.entries));
      JoinsOn(actions, results, r, cluster.importHome, start, origin, cluster.origin, sealed, cluster.sealed);
      StillNone(results, r);
      results := results + [r];
    }
    cluster.ValidMeans();
    OnCourseMeans(actions, results, configured, cluster.configured, cluster.ldap.credentials.Some?, cluster.origin,
                  cluster.sealed);
    DamagedBlocks(actions, results, cluster.importHome, start, cluster.origin, cluster.sealed);
  }

  ghost predicate NoneYet(results: seq<Option<Installed>>) { forall i :: 0 <= i < |results| ==> results[i].None? }

  lemma StillNone(results: seq<Option<Installed>>, r: Option<Installed>)
    ensures NoneYet(results) && r.None? ==> NoneYet(results + [r])
  {
  }

  lemma NothingYet(secretId: Bytes -> Option<string>, actions: seq<Action>, importHome: string,
                   start: Option<Secrets>, sealed: Option<Package>, servers: set<string>)
    ensures RolledOut(secretId, actions, [], start, start, servers) && NoneYet([])
    ensures AllJoined(actions, [], importHome, start, start, sealed)
  {
  }

  /** Nobody joins a damaged archive, or one that nobody uploaded. */
  lemma DamagedBlocks(actions: seq<Action>, results: seq<Option<Installed>>, importHome: string,
                      start: Option<Secrets>, origin: Option<Secrets>, sealed: Option<Package>)
    requires AllJoined(actions, results, importHome, start, origin, sealed)
    ensures start.Some? && (sealed.None? || sealed.value.tar.damaged) ==> NoneYet(results)
  {
  }

  /**
   * The daemon's query and start. It refuses exactly when the registry contradicts its role, and gets no further than
   * the query exactly when a call fails.
   */
  method RunDaemon(ldap: LdapContext, isServer: bool, local: string, shell: string, notifySocket: string)
    returns (r: Option<Daemon.Start>)
    requires ldap.Valid()
    modifies ldap`open, ldap`dials, ldap`failures, ldap.masters
    ensures ldap.Valid() && ldap.open == old(ldap.open)
    ensures ldap.failures >= old(ldap.failures)
    ensures exists connected :: Tried(old(ldap.dials), ldap.dials, old(ldap.Urls(false)), connected)
    ensures r.Some? <==> Served(old(ldap.dials), ldap.dials, old(ldap.failures), ldap.failures)
    ensures r.Some? ==> (r.value.Exec? <==> (isServer <==> local in Servers(ldap.entries)))
    ensures r.Some? && r.value.Exec? ==>
      Daemon.Tells(r.value.args, isServer, WithService(ldap.entries, SERVICE_DISCOVER), local)
  {
    var servers := ldap.QueryAllServersWithService(SERVICE_DISCOVER);
    if servers.Err? {
      return None;
    }
    var start := Daemon.StartConsul(isServer, servers.value, local, shell, notifySocket);
    return Some(start);
  }

  /**
   * A host that AddService has just added passes the server's check, and only that check. Where no call fails, a host
   * with an entry gets there.
   */
  method AddAndStart(ldap: LdapContext, host: string, isServer: bool, shell: string, notifySocket: string)
    returns (r: Option<Daemon.Start>)
    requires ldap.Valid()
    modifies ldap`open, ldap`dials, ldap`failures, ldap`entries, ldap.masters
    ensures r.Some? ==> (r.value.Exec? <==> isServer)
    ensures ldap.masterLen > 0 && AllAnswered(old(ldap.dials), ldap.dials, old(ldap.failures), ldap.failures) ==>
      (r.Some? <==> host in RegistryOf(old(ldap.entries)))
  {
    ghost var urls := ldap.Urls(true);
    var failed := AddServiceInLdap(ldap, host);
    ghost var dials, failures := ldap.dials, ldap.failures;
    if failed.Some? {
      r := None;
    } else {
      ghost var all := ldap.Urls(false);
      r := RunDaemon(ldap, isServer, host, shell, notifySocket);
      ghost var connected :| Tried(dials, ldap.dials, all, connected);
      if ldap.masterLen > 0 && AllAnswered(old(ldap.dials), ldap.dials, old(ldap.failures), ldap.failures) {
        AnsweredIsServed(old(ldap.dials), dials, ldap.dials, all, connected, old(ldap.failures), failures,
                         ldap.failures);
      }
    }
    if ldap.masterLen > 0 && AllAnswered(old(ldap.dials), dials, old(ldap.failures), failures) {
      AnsweredIsServed(old(ldap.dials), old(ldap.dials), dials, urls,
                       failed !in {Some(NoURLsDefined), Some(ConnectionFailed)}, old(ldap.failures),
                       old(ldap.failures), failures);
    }
  }
}
