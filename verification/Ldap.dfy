/** The LDAP handler: connections, the registry of services per server, and the stored credentials. */
module Ldap {
  import opened GoText
  import opened Slices
  import opened Archive
  import Base64

  /** An entry under cn=servers,cn=zimbra with its zimbraServiceEnabled values. */
  datatype ServerEntry = ServerEntry(dn: string, hostname: string, services: seq<string>)

  datatype Change = AddValue(value: string) | DeleteValue(value: string)

  datatype LdapError =
    | NoURLsDefined
    | ConnectionFailed
    | BindFailed
    | SearchFailed
    | ServerNotFound
    | ModifyFailed
    | UnexpectedResultCount
    | CorruptValue

  // ---- The registry: a map from host to its set of services

  type Registry = map<string, set<string>>

  ghost predicate WellFormed(entries: seq<ServerEntry>) {
    && (forall i, j :: 0 <= i < j < |entries| ==>
          entries[i].hostname != entries[j].hostname && entries[i].dn != entries[j].dn)
    && (forall i :: 0 <= i < |entries| ==> Distinct(entries[i].services))
  }

  ghost predicate Describes(reg: Registry, entries: seq<ServerEntry>) {
    && (forall i :: 0 <= i < |entries| ==>
         entries[i].hostname in reg && reg[entries[i].hostname] == Elements(entries[i].services))
    && (forall h :: h in reg ==> exists i :: 0 <= i < |entries| && entries[i].hostname == h)
  }

  /** Section 4.6 of RFC 4511: adding an existing value, or deleting a missing one, is an error. */
  predicate Acceptable(services: seq<string>, change: Change) {
    match change
    case AddValue(v) => v !in services
    case DeleteValue(v) => v in services
  }

  function Changed(services: seq<string>, change: Change): seq<string> {
    match change
    case AddValue(v) => services + [v]
    case DeleteValue(v) => Without(services, v)
  }

  function Without(services: seq<string>, v: string): seq<string> {
    if services == [] then [] else
      Without(services[..|services| - 1], v) + if services[|services| - 1] == v then [] else [services[|services| - 1]]
  }

  function Wanted(services: set<string>, change: Change): set<string> {
    match change
    case AddValue(v) => services + {v}
    case DeleteValue(v) => services - {v}
  }

  lemma {:induction false} WithoutRemoves(services: seq<string>, v: string)
    requires Distinct(services)
    ensures Distinct(Without(services, v))
    ensures forall s :: s in Without(services, v) <==> s in services && s != v
  {
    if services != [] {
      WithoutRemoves(services[..|services| - 1], v);
      assert services == services[..|services| - 1] + [services[|services| - 1]];
      DistinctNext(services[..|services| - 1], services[|services| - 1]);
      DistinctNext(Without(services[..|services| - 1], v), services[|services| - 1]);
    }
  }

  lemma ChangedValues(services: seq<string>, change: Change)
    requires Distinct(services) && Acceptable(services, change)
    ensures Distinct(Changed(services, change))
    ensures Elements(Changed(services, change)) == Wanted(Elements(services), change)
  {
    if change.DeleteValue? {
      WithoutRemoves(services, change.value);
    }
  }

  /** What a Modify of entry `i` does to the registry. */
  lemma ModifiedEntry(reg: Registry, entries: seq<ServerEntry>, i: nat, change: Change)
    requires WellFormed(entries) && Describes(reg, entries) && i < |entries| && Acceptable(entries[i].services, change)
    ensures var entries' := entries[i := entries[i].(services := Changed(entries[i].services, change))];
            && WellFormed(entries')
            && Describes(reg[entries[i].hostname := Wanted(reg[entries[i].hostname], change)], entries')
  {
    ChangedValues(entries[i].services, change);
    var entries' := entries[i := entries[i].(services := Changed(entries[i].services, change))];
    var reg' := reg[entries[i].hostname := Wanted(reg[entries[i].hostname], change)];
    forall h | h in reg' ensures exists j :: 0 <= j < |entries'| && entries'[j].hostname == h {
      var j :| 0 <= j < |entries| && entries[j].hostname == h;
      assert entries'[j].hostname == h;
    }
  }

  lemma OneRegistry(a: Registry, b: Registry, entries: seq<ServerEntry>)
    requires Describes(a, entries) && Describes(b, entries)
    ensures a == b
  {
    forall h ensures h in a <==> h in b {
    }
  }

  /** The index of the entry a search for the host name finds first. */
  function FindHost(entries: seq<ServerEntry>, server: string): (i: nat)
    ensures i <= |entries| && (i < |entries| ==> entries[i].hostname == server)
    ensures forall j :: 0 <= j < i ==> entries[j].hostname != server
  {
    if entries == [] then 0 else
      var i := FindHost(entries[..|entries| - 1], server);
      if i < |entries| - 1 || entries[i].hostname == server then i else |entries|
  }

  function WithService(entries: seq<ServerEntry>, service: string): seq<string> {
    if entries == [] then [] else
      WithService(entries[..|entries| - 1], service)
      + if service in entries[|entries| - 1].services then [entries[|entries| - 1].hostname] else []
  }

  ghost predicate HasService(entries: seq<ServerEntry>, host: string, service: string) {
    exists i :: 0 <= i < |entries| && entries[i].hostname == host && service in entries[i].services
  }

  /** The list of servers is distinct and names exactly the hosts that have the service. */
  lemma {:induction false} ServersListed(entries: seq<ServerEntry>, service: string)
    requires WellFormed(entries)
    ensures Distinct(WithService(entries, service))
    ensures forall h :: h in WithService(entries, service) <==> HasService(entries, h, service)
  {
    if entries != [] {
      var front, last := entries[..|entries| - 1], entries[|entries| - 1];
      ServersListed(front, service);
      assert !HasService(front, last.hostname, service);
      DistinctNext(WithService(front, service), last.hostname);
      assert forall i :: 0 <= i < |front| ==> front[i] == entries[i];
    }
  }

  /** In terms of the registry: the query answers the hosts that have the service. */
  lemma ListedAreRegistered(reg: Registry, entries: seq<ServerEntry>, service: string, h: string)
    requires WellFormed(entries) && Describes(reg, entries)
    ensures h in WithService(entries, service) <==> h in reg && service in reg[h]
  {
    ServersListed(entries, service);
    if h in reg {
      var i :| 0 <= i < |entries| && entries[i].hostname == h;
      if service in reg[h] {
        assert HasService(entries, h, service);
      }
    }
  }

  ghost function RegistryOf(entries: seq<ServerEntry>): Registry {
    map h | h in (set i | 0 <= i < |entries| :: entries[i].hostname) && FindHost(entries, h) < |entries|
      :: Elements(entries[FindHost(entries, h)].services)
  }

  lemma RegistryDescribes(entries: seq<ServerEntry>)
    requires WellFormed(entries)
    ensures Describes(RegistryOf(entries), entries)
  {
    forall i | 0 <= i < |entries| ensures FindHost(entries, entries[i].hostname) == i {
      var j := FindHost(entries, entries[i].hostname);
      assert j <= i;
    }
  }

  /** The registry after `change` at `server`. */
  ghost function Update(reg: Registry, server: string, change: Change): Registry {
    if server in reg then reg[server := Wanted(reg[server], change)] else reg
  }

  lemma RegistryHasHost(entries: seq<ServerEntry>, server: string)
    requires WellFormed(entries)
    ensures server in RegistryOf(entries) <==> FindHost(entries, server) < |entries|
  {
    RegistryDescribes(entries);
  }

  lemma RegistryAfter(entries: seq<ServerEntry>, i: nat, change: Change)
    requires WellFormed(entries) && i < |entries| && Acceptable(entries[i].services, change)
    ensures var entries' := entries[i := entries[i].(services := Changed(entries[i].services, change))];
            && WellFormed(entries')
            && RegistryOf(entries') == Update(RegistryOf(entries), entries[i].hostname, change)
  {
    var entries' := entries[i := entries[i].(services := Changed(entries[i].services, change))];
    RegistryDescribes(entries);
    ModifiedEntry(RegistryOf(entries), entries, i, change);
    RegistryDescribes(entries');
    OneRegistry(RegistryOf(entries'), Update(RegistryOf(entries), entries[i].hostname, change), entries');
  }

  lemma NothingToDo(entries: seq<ServerEntry>, i: nat, change: Change)
    requires WellFormed(entries) && i < |entries| && !Acceptable(entries[i].services, change)
    ensures entries[i].hostname in RegistryOf(entries)
    ensures Update(RegistryOf(entries), entries[i].hostname, change) == RegistryOf(entries)
  {
    RegistryDescribes(entries);
    assert Wanted(RegistryOf(entries)[entries[i].hostname], change) == RegistryOf(entries)[entries[i].hostname];
  }

  /** Changes at a host: idempotent, undone by the opposite where they did something, and silent about other hosts. */
  lemma UpdateLaws(reg: Registry, server: string, service: string)
    ensures forall c: Change :: Update(Update(reg, server, c), server, c) == Update(reg, server, c)
    ensures server in reg && service !in reg[server] ==>
      Update(Update(reg, server, AddValue(service)), server, DeleteValue(service)) == reg
    ensures server in reg && service in reg[server] ==>
      Update(Update(reg, server, DeleteValue(service)), server, AddValue(service)) == reg
    ensures forall c: Change :: Update(reg, server, c).Keys == reg.Keys
    ensures forall c: Change, h, v :: h in reg && (h != server || v != c.value) ==>
      (v in Update(reg, server, c)[h] <==> v in reg[h])
  {
    forall c: Change ensures Update(Update(reg, server, c), server, c) == Update(reg, server, c) {
      if server in reg {
        assert Wanted(Wanted(reg[server], c), c) == Wanted(reg[server], c);
      }
    }
    if server in reg {
      assert service !in reg[server] ==> reg[server] + {service} - {service} == reg[server];
      assert service in reg[server] ==> reg[server] - {service} + {service} == reg[server];
    }
  }

  /** How a change at `server` may end: made, refused for want of an entry, or failed, with all of it made or none. */
  ghost predicate Ends(before: Registry, server: string, change: Change, r: Option<LdapError>, after: Registry) {
    match r
    case None => server in before && after == Update(before, server, change)
    case Some(ServerNotFound) => server !in before && after == before
    case Some(ModifyFailed) => server in before && (after == before || after == Update(before, server, change))
    case Some(_) => after == before
  }

  // ---- The handler

  class Connection {
    const url: string

    constructor (url: string)
      ensures this.url == url
    {
      this.url := url;
    }
  }

  /** A dial and whether it gave a connection. */
  type Dials = seq<(string, bool)>

  /** The dials since `before` went through the URLs in order, each failing but the last. */
  ghost predicate Tried(before: Dials, after: Dials, urls: seq<string>, connected: bool) {
    && before <= after
    && var n := |after| - |before|;
       && n <= |urls|
       && (forall i :: 0 <= i < n ==> after[|before| + i] == (urls[i], connected && i == n - 1))
       && (if connected then n > 0 else n == |urls|)
  }

  /** In between a URL was reached, and nothing but dials passed over has failed. */
  ghost predicate Served(before: Dials, after: Dials, failures: nat, failures': nat) {
    |before| < |after| && after[|after| - 1].1 && failures' == failures
  }

  /** In between no call has failed, dials included. */
  ghost predicate AllAnswered(before: Dials, after: Dials, failures: nat, failures': nat) {
    before <= after && failures' == failures && forall i :: |before| <= i < |after| ==> after[i].1
  }

  lemma AnsweredIsServed(first: Dials, before: Dials, after: Dials, urls: seq<string>, connected: bool,
                         failures: nat, failures': nat, failures'': nat)
    requires first <= before && Tried(before, after, urls, connected) && urls != []
    requires failures <= failures' <= failures'' && AllAnswered(first, after, failures, failures'')
    ensures AllAnswered(first, before, failures, failures') && Served(before, after, failures', failures'')
  {
    assert forall i :: |first| <= i < |before| ==> before[i] == after[i];
    assert after[|after| - 1] == after[|before| + (|after| - |before| - 1)];
  }

  class LdapContext {
    /** MasterUrls is the first `masterLen` slots of an array that may be longer. */
    const masters: array<string>
    const masterLen: nat
    const replicas: seq<string>
    /** The directory behind every URL. */
    var entries: seq<ServerEntry>
    var credentials: Option<string>
    /** Open connections, every dial with its outcome, and how many binds, searches and modifications failed. */
    ghost var open: set<Connection>
    ghost var dials: Dials
    ghost var failures: nat

    constructor (masters: array<string>, masterLen: nat, replicas: seq<string>, entries: seq<ServerEntry>)
      requires masterLen <= masters.Length && WellFormed(entries)
      ensures Valid() && open == {} && dials == [] && failures == 0 && this.entries == entries && credentials == None
      ensures this.masters == masters && this.masterLen == masterLen && this.replicas == replicas
    {
      this.masters, this.masterLen, this.replicas := masters, masterLen, replicas;
      this.entries, this.credentials := entries, None;
      open, dials, failures := {}, [], 0;
    }

    ghost predicate Valid()
      reads this`entries
    {
      masterLen <= masters.Length && WellFormed(entries)
    }

    /** The URLs tried, in order: masters first, and masters only for writes. */
    ghost function Urls(writeAccess: bool): seq<string>
      requires masterLen <= masters.Length
      reads masters
    {
      masters[..masterLen] + if writeAccess then [] else replicas
    }

    /** A new connection; null stands for an error and for a nil connection alike. */
    method Dial(url: string) returns (r: Connection?)
      modifies this`open, this`dials
      ensures dials == old(dials) + [(url, r != null)]
      ensures r == null ==> open == old(open)
      ensures r != null ==> fresh(r) && r.url == url && open == old(open) + {r}
    {
      var ok: bool := *;
      r := null;
      if ok {
        r := new Connection(url);
        open := open + {r};
      }
      dials := dials + [(url, ok)];
    }

    /** A bind, a search or a Modify. */
    method Call(c: Connection) returns (ok: bool)
      requires c in open
      modifies this`failures
      ensures failures == old(failures) + if ok then 0 else 1
    {
      ok := *;
      failures := failures + if ok then 0 else 1;
    }

    ghost method Close(c: Connection)
      requires c in open
      modifies this`open
      ensures open == old(open) - {c}
    {
      open := open - {c};
    }

    lemma WriteUrls()
      requires Valid()
      ensures masterLen <= masters.Length && (masterLen > 0 ==> Urls(true) != [])
    {
    }

    /** It succeeds exactly when a URL can be reached and lets it bind. */
    method Connect(writeAccess: bool) returns (r: Result<Connection, LdapError>)
      requires Valid()
      modifies this`open, this`dials, this`failures, masters
      ensures masters[..masterLen] == old(masters[..masterLen])
      ensures failures >= old(failures) && (r.Ok? <==> Served(old(dials), dials, old(failures), failures))
      ensures r.Err? ==> open == old(open)
      ensures r.Ok? ==> fresh(r.value) && open == old(open) + {r.value}
      ensures Tried(old(dials), dials, old(Urls(writeAccess)), r.Ok? || r.error == BindFailed)
      ensures r == Err(NoURLsDefined) <==> old(Urls(writeAccess)) == []
      ensures r.Err? ==> r.error in {NoURLsDefined, ConnectionFailed, BindFailed}
    {
      var urls, n := masters, masterLen;
      if !writeAccess {
        urls := AppendAll(masters, masterLen, replicas);
        n := masterLen + |replicas|;
      }
      ghost var all := old(Urls(writeAccess));
      assert urls[..n] == all && |all| == n;
      if n == 0 {
        return Err(NoURLsDefined);
      }
      var connection: Connection? := null;
      var i := 0;
      while i < n && connection == null
        invariant 0 <= i <= n && urls[..n] == all && masters[..masterLen] == old(masters[..masterLen])
        invariant |dials| == |old(dials)| + i && (i > 0 ==> dials[|dials| - 1].1 == (connection != null))
        invariant connection == null ==> open == old(open)
        invariant connection != null ==> fresh(connection) && open == old(open) + {connection} && i > 0
        invariant old(dials) <= dials && failures == old(failures)
        invariant forall k :: 0 <= k < i ==> dials[|old(dials)| + k] == (all[k], connection != null && k == i - 1)
      {
        assert urls[i] == urls[..n][i];
        connection := Dial(urls[i]);
        i := i + 1;
      }
      if connection == null {
        return Err(ConnectionFailed);
      }
      var bound := Call(connection);
      if !bound {
        Close(connection);
        assert open == old(open);
        return Err(BindFailed);
      }
      return Ok(connection);
    }

    /** A search by host name, in directory order. */
    method SearchHost(c: Connection, server: string) returns (r: Option<seq<ServerEntry>>)
      requires c in open
      modifies this`failures
      ensures failures == old(failures) + if r.Some? then 0 else 1
      ensures r.Some? ==>
        r.value == if FindHost(entries, server) < |entries| then [entries[FindHost(entries, server)]] else []
    {
      var ok := Call(c);
      r := None;
      if ok {
        var i := FindHost(entries, server);
        r := Some(if i < |entries| then [entries[i]] else []);
      }
    }

    /**
     * A Modify of one entry. It is only ever sent when section 4.6 of RFC 4511 allows it; a failure may come
     * before or after it took effect.
     */
    method ModifyServices(c: Connection, dn: string, change: Change, ghost i: nat) returns (ok: bool)
      requires c in open && i < |entries| && entries[i].dn == dn && Acceptable(entries[i].services, change)
      requires WellFormed(entries)
      modifies this`entries, this`failures
      ensures failures == old(failures) + if ok then 0 else 1
      ensures entries == old(entries)[i := old(entries)[i].(services := Changed(old(entries)[i].services, change))]
           || (!ok && entries == old(entries))
    {
      ok := Call(c);
      var applied: bool := *;
      if ok || applied {
        var k := 0;
        while entries[k].dn != dn
          invariant k <= i
          decreases i - k
        {
          k := k + 1;
        }
        assert k == i;
        entries := entries[k := entries[k].(services := Changed(entries[k].services, change))];
      }
    }

    /**
     * AddService and RemoveService. Success makes exactly the change to the registry; any error but a failed Modify
     * leaves it alone, and a failed Modify has made all of the change or none. Where no call fails it succeeds exactly
     * when the server has an entry. Every connection is closed again.
     */
    method ModifyEnabledServices(server: string, change: Change) returns (r: Option<LdapError>)
      requires Valid()
      modifies this`open, this`dials, this`failures, this`entries, masters
      ensures Valid() && open == old(open) && masters[..masterLen] == old(masters[..masterLen])
      ensures failures >= old(failures)
      ensures Served(old(dials), dials, old(failures), failures) ==>
        r == if server in RegistryOf(old(entries)) then None else Some(ServerNotFound)
      ensures !Served(old(dials), dials, old(failures), failures) ==> r !in {None, Some(ServerNotFound)}
      ensures Tried(old(dials), dials, old(Urls(true)), r !in {Some(NoURLsDefined), Some(ConnectionFailed)})
      ensures Ends(RegistryOf(old(entries)), server, change, r, RegistryOf(entries))
    {
      var connection := Connect(true);
      if connection.Err? {
        return Some(connection.error);
      }
      var result := SearchHost(connection.value, server);
      if result.None? {
        Close(connection.value);
        return Some(SearchFailed);
      }
      RegistryHasHost(entries, server);
      if |result.value| == 0 {
        Close(connection.value);
        return Some(ServerNotFound);
      }
      ghost var i := FindHost(entries, server);
      var attributeExist := change.value in result.value[0].services;
      if (attributeExist && change.AddValue?) || (!attributeExist && change.DeleteValue?) {
        Close(connection.value);
        NothingToDo(entries, i, change);
        return None;
      }
      RegistryAfter(entries, i, change);
      var ok := ModifyServices(connection.value, result.value[0].dn, change, i);
      Close(connection.value);
      return if ok then None else Some(ModifyFailed);
    }

    /**
     * QueryAllServersWithService: the host names with the service, each once, in directory order. It fails only where
     * a call does.
     */
    method QueryAllServersWithService(service: string) returns (r: Result<seq<string>, LdapError>)
      requires Valid()
      modifies this`open, this`dials, this`failures, masters
      ensures Valid() && open == old(open) && masters[..masterLen] == old(masters[..masterLen])
      ensures Tried(old(dials), dials, old(Urls(false)), r.Ok? || r.error !in {NoURLsDefined, ConnectionFailed})
      ensures failures >= old(failures) && (r.Ok? <==> Served(old(dials), dials, old(failures), failures))
      ensures r.Ok? ==> r.value == WithService(entries, service) && Distinct(r.value)
      ensures r.Ok? ==> forall h :: h in r.value <==> h in RegistryOf(entries) && service in RegistryOf(entries)[h]
    {
      var connection := Connect(false);
      if connection.Err? {
        return Err(connection.error);
      }
      var ok := Call(connection.value);
      if !ok {
        Close(connection.value);
        return Err(SearchFailed);
      }
      var result := SearchService(connection.value, service);
      var servers := NamesOf(result);
      Close(connection.value);
      ServersListed(entries, service);
      RegistryDescribes(entries);
      forall h ensures h in servers <==> h in RegistryOf(entries) && service in RegistryOf(entries)[h] {
        ListedAreRegistered(RegistryOf(entries), entries, service, h);
      }
      return Ok(servers);
    }

    method NamesOf(result: seq<ServerEntry>) returns (servers: seq<string>)
      ensures servers == HostNames(result)
    {
      servers := [];
      assert result[..0] == [];
      for i := 0 to |result|
        invariant servers == HostNames(result[..i])
      {
        assert result[..i + 1][..i] == result[..i];
        servers := servers + [result[i].hostname];
      }
      assert result[..|result|] == result;
    }

    /** The entries that match (zimbraServiceEnabled=service), in directory order. */
    method SearchService(c: Connection, service: string) returns (result: seq<ServerEntry>)
      requires c in open
      ensures HostNames(result) == WithService(entries, service)
    {
      result := [];
      assert entries[..0] == [];
      for i := 0 to |entries|
        invariant HostNames(result) == WithService(entries[..i], service)
      {
        assert entries[..i + 1][..i] == entries[..i];
        if service in entries[i].services {
          assert (result + [entries[i]])[..|result|] == result;
          result := result + [entries[i]];
        }
      }
      assert entries[..|entries|] == entries;
    }

    method CheckServerAvailability(write: bool) returns (ok: bool)
      requires Valid()
      modifies this`open, this`dials, this`failures, masters
      ensures Valid() && open == old(open) && masters[..masterLen] == old(masters[..masterLen])
      ensures failures >= old(failures) && (ok <==> Served(old(dials), dials, old(failures), failures))
      ensures Tried(old(dials), dials, old(Urls(write)), true)
           || (!ok && Tried(old(dials), dials, old(Urls(write)), false))
    {
      var connection := Connect(write);
      if connection.Ok? {
        Close(connection.value);
      }
      return connection.Ok?;
    }

    /** A Modify that replaces the stored value; a failed one may have taken effect. */
    method ReplaceCredentials(c: Connection, value: string) returns (ok: bool)
      requires c in open
      modifies this`credentials, this`failures
      ensures failures == old(failures) + if ok then 0 else 1
      ensures credentials == Some(value) || (!ok && credentials == old(credentials))
    {
      ok := Call(c);
      var applied: bool := *;
      if ok || applied {
        credentials := Some(value);
      }
    }

    /** Replaces the stored value, and fails only where a call does. */
    method UploadBinary(content: Bytes) returns (r: Option<LdapError>)
      requires Valid()
      modifies this`open, this`dials, this`failures, this`credentials, masters
      ensures Valid() && open == old(open) && masters[..masterLen] == old(masters[..masterLen])
      ensures Tried(old(dials), dials, old(Urls(true)), r !in {Some(NoURLsDefined), Some(ConnectionFailed)})
      ensures failures >= old(failures) && (r.None? <==> Served(old(dials), dials, old(failures), failures))
      ensures credentials == Some(Base64.Encode(content)) || (r.Some? && credentials == old(credentials))
    {
      var connection := Connect(true);
      if connection.Err? {
        return Some(connection.error);
      }
      var ok := ReplaceCredentials(connection.value, Base64.Encode(content));
      Close(connection.value);
      return if ok then None else Some(ModifyFailed);
    }

    /**
     * Decodes the stored value; without the attribute the search finds no entry. Where no call fails it succeeds
     * exactly when there is a value that can be decoded.
     */
    method DownloadBinary() returns (r: Result<Bytes, LdapError>)
      requires Valid()
      modifies this`open, this`dials, this`failures, masters
      ensures Valid() && open == old(open) && masters[..masterLen] == old(masters[..masterLen])
      ensures Tried(old(dials), dials, old(Urls(false)), r.Ok? || r.error !in {NoURLsDefined, ConnectionFailed})
      ensures failures >= old(failures)
      ensures Served(old(dials), dials, old(failures), failures) ==>
        match credentials
        case None => r == Err(UnexpectedResultCount)
        case Some(value) =>
          (r.Ok? <==> Base64.Decode(value).Some?)
          && (if r.Ok? then Base64.Decode(value) == Some(r.value) else r.error == CorruptValue)
      ensures !Served(old(dials), dials, old(failures), failures) ==>
        r.Err? && r.error !in {UnexpectedResultCount, CorruptValue}
    {
      var connection := Connect(false);
      if connection.Err? {
        return Err(connection.error);
      }
      var ok := Call(connection.value);
      Close(connection.value);
      if !ok {
        return Err(SearchFailed);
      }
      if credentials.None? {
        return Err(UnexpectedResultCount);
      }
      match Base64.Decode(credentials.value) {
        case None => return Err(CorruptValue);
        case Some(content) => return Ok(content);
      }
    }
  }

  function HostNames(entries: seq<ServerEntry>): seq<string> {
    if entries == [] then [] else HostNames(entries[..|entries| - 1]) + [entries[|entries| - 1].hostname]
  }

  datatype Operation = Operation(server: string, change: Change)

  /** The registry after those operations that were applied. */
  ghost function UpdateAll(reg: Registry, ops: seq<Operation>, applied: seq<bool>): Registry
    requires |ops| == |applied|
  {
    if ops == [] then reg else
      var n := |ops| - 1;
      var before := UpdateAll(reg, ops[..n], applied[..n]);
      if applied[n] then Update(before, ops[n].server, ops[n].change) else before
  }

  /** Successful operations were applied, others only where their Modify failed, and nothing else happened. */
  ghost predicate Applied(ops: seq<Operation>, results: seq<Option<LdapError>>, applied: seq<bool>,
                          start: Registry, reg: Registry)
  {
    && |results| == |applied| <= |ops|
    && (forall i :: 0 <= i < |results| ==>
         (results[i].None? ==> applied[i]) && (results[i].Some? && results[i] != Some(ModifyFailed) ==> !applied[i]))
    && reg == UpdateAll(start, ops[..|results|], applied) && reg.Keys == start.Keys
  }

  /** An operation fails for want of an entry, or not at all. */
  ghost predicate AsListed(ops: seq<Operation>, results: seq<Option<LdapError>>, reg: Registry) {
    |results| <= |ops| && forall i :: 0 <= i < |results| ==>
      results[i] == if ops[i].server in reg then None else Some(ServerNotFound)
  }

  lemma AppliedNext(ops: seq<Operation>, results: seq<Option<LdapError>>, applied: seq<bool>, start: Registry,
                    reg: Registry, r: Option<LdapError>, reg': Registry) returns (done: bool)
    requires Applied(ops, results, applied, start, reg) && |results| < |ops|
    requires Ends(reg, ops[|results|].server, ops[|results|].change, r, reg')
    ensures Applied(ops, results + [r], applied + [done], start, reg')
    ensures AsListed(ops, results, start) ==>
      r == (if ops[|results|].server in reg then None else Some(ServerNotFound)) ==> AsListed(ops, results + [r], start)
  {
    done := r.None? || (r == Some(ModifyFailed) && reg' != reg);
    var n := |results|;
    assert ops[..n + 1][..n] == ops[..n] && (applied + [done])[..n] == applied;
  }

  lemma NothingApplied(ops: seq<Operation>, reg: Registry)
    ensures Applied(ops, [], [], reg, reg) && AsListed(ops, [], reg)
  {
    assert ops[..0] == [];
  }

  lemma AllApplied(ops: seq<Operation>, results: seq<Option<LdapError>>, applied: seq<bool>, start: Registry,
                   reg: Registry)
    requires Applied(ops, results, applied, start, reg) && |results| == |ops|
    ensures |applied| == |ops| && reg == UpdateAll(start, ops, applied)
  {
    assert ops[..|ops|] == ops;
  }

  /**
   * Any sequence of AddService and RemoveService acts on the registry map like the sequence of its successful
   * operations, except that one that ended in a failed Modify may also have been applied. Where no call fails, exactly
   * the operations on hosts with an entry succeed.
   */
  method RunOperations(ldap: LdapContext, ops: seq<Operation>)
    returns (results: seq<Option<LdapError>>, ghost applied: seq<bool>)
    requires ldap.Valid()
    modifies ldap`open, ldap`dials, ldap`failures, ldap`entries, ldap.masters
    ensures ldap.Valid() && ldap.open == old(ldap.open)
    ensures |results| == |ops|
    ensures Applied(ops, results, applied, RegistryOf(old(ldap.entries)), RegistryOf(ldap.entries))
    ensures |applied| == |ops| && RegistryOf(ldap.entries) == UpdateAll(RegistryOf(old(ldap.entries)), ops, applied)
    ensures ldap.masterLen > 0 && AllAnswered(old(ldap.dials), ldap.dials, old(ldap.failures), ldap.failures) ==>
      AsListed(ops, results, RegistryOf(old(ldap.entries)))
  {
    hide *;
    results, applied := [], [];
    NothingApplied(ops, RegistryOf(ldap.entries));
    ghost var start, firstDials, firstFailures := RegistryOf(ldap.entries), ldap.dials, ldap.failures;
    for i := 0 to |ops|
      invariant ldap.Valid() && ldap.open == old(ldap.open) && |results| == i
      invariant Applied(ops, results, applied, start, RegistryOf(ldap.entries))
      invariant firstDials <= ldap.dials && firstFailures <= ldap.failures
      invariant ldap.masterLen > 0 && AllAnswered(firstDials, ldap.dials, firstFailures, ldap.failures) ==>
        AsListed(ops, results, start)
    {
      ghost var before, dials, failures := RegistryOf(ldap.entries), ldap.dials, ldap.failures;
      ldap.WriteUrls();
      ghost var urls := ldap.Urls(true);
      var r := ldap.ModifyEnabledServices(ops[i].server, ops[i].change);
      ghost var done := AppliedNext(ops, results, applied, start, before, r, RegistryOf(ldap.entries));
      if ldap.masterLen > 0 && AllAnswered(firstDials, ldap.dials, firstFailures, ldap.failures) {
        AnsweredIsServed(firstDials, dials, ldap.dials, urls, r !in {Some(NoURLsDefined), Some(ConnectionFailed)},
                         firstFailures, failures, ldap.failures);
      }
      results, applied := results + [r], applied + [done];
    }
    AllApplied(ops, results, applied, start, RegistryOf(ldap.entries));
  }

  /** Go's append: in place when the capacity allows, which leaves the first `len` slots as they were. */
  method AppendAll(a: array<string>, len: nat, xs: seq<string>) returns (b: array<string>)
    requires len <= a.Length
    modifies a
    ensures b == a || fresh(b)
    ensures b.Length >= len + |xs| && b[..len + |xs|] == old(a[..len]) + xs
    ensures a[..len] == old(a[..len])
  {
    b := a;
    if a.Length < len + |xs| {
      b := new string[len + |xs|](i requires 0 <= i < len + |xs| reads a => if i < len then a[i] else "");
    }
    for i := 0 to |xs|
      invariant forall k :: 0 <= k < len ==> b[k] == old(a[k]) == a[k]
      invariant forall k :: 0 <= k < i ==> b[len + k] == xs[k]
    {
      b[len + i] := xs[i];
    }
  }
}
