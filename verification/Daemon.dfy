/** service-discoverd: the size of a majority and the command line handed to Consul. */
module Daemon {
  import opened GoText
  import opened Slices

  /** The -bootstrap-expect value for a list of `n` servers. */
  function BootstrapExpect(n: nat): nat { n / 2 + 1 }

  /** Any `k` servers of S and any `l` servers of T have one in common. */
  ghost predicate Meet(S: set<string>, k: int, T: set<string>, l: int) {
    forall A, B :: A <= S && B <= T && |A| >= k && |B| >= l ==> A * B != {}
  }

  lemma {:induction false} TakeSome(S: set<string>, k: nat) returns (A: set<string>)
    requires k <= |S|
    ensures A <= S && |A| == k
  {
    if k == 0 {
      A := {};
    } else {
      var x :| x in S;
      var rest := TakeSome(S - {x}, k - 1);
      A := rest + {x};
    }
  }

  lemma SubsetSize(A: set<string>, T: set<string>)
    requires A <= T
    ensures |T - A| == |T| - |A|
  {
    assert T == A + (T - A);
  }

  /** Counting decides: groups of these sizes always meet exactly when together they outnumber the larger list. */
  lemma MeetByCounting(S: set<string>, k: nat, T: set<string>, l: nat)
    requires S <= T && k <= |S| && l <= |T|
    ensures Meet(S, k, T, l) <==> k + l > |T|
  {
    if k + l > |T| {
      forall A, B | A <= S && B <= T && |A| >= k && |B| >= l ensures A * B != {} {
        SubsetSize(A, T);
        if A * B == {} {
          assert B <= T - A;
          SubsetSize(B, T - A);
        }
      }
    } else {
      var A := TakeSome(S, k);
      SubsetSize(A, T);
      var B := TakeSome(T - A, l);
      assert A * B == {};
    }
  }

  // ---- The command line

  const EXIT_CODE_LDAP_ERROR := 1004

  datatype Start = Refused(exitCode: int) | Exec(args: seq<string>, env: seq<string>)

  function Header(isServer: bool, n: nat): seq<string> {
    if isServer then
      ["/usr/bin/consul", "agent", "-bootstrap-expect", Itoa(BootstrapExpect(n)),
       "-config-dir", "/etc/zextras/service-discover/", "-server"]
    else
      ["/usr/bin/consul", "agent", "-config-dir", "/etc/zextras/service-discover/"]
  }

  /** The -bootstrap-expect value that Consul reads from the command line of a server with this list. */
  function QuorumGiven(servers: seq<string>): int { Decimal(Header(true, |servers|)[3]) }

  /** For a distinct list it never exceeds the number of servers, and is the least size whose groups always meet. */
  lemma LeastQuorum(servers: seq<string>, k: nat)
    requires Distinct(servers) && servers != [] && k <= |servers|
    ensures 1 <= QuorumGiven(servers) <= |servers|
    ensures Meet(Elements(servers), k, Elements(servers), k) <==> k >= QuorumGiven(servers)
  {
    ItoaIsRead(BootstrapExpect(|servers|));
    DistinctSize(servers);
    MeetByCounting(Elements(servers), k, Elements(servers), k);
  }

  /**
   * Two daemons that saw different lists, one inside the other: quorums of the two always meet exactly when the
   * larger list has at most one server more, or two more and the smaller is even.
   */
  lemma QuorumsAcrossLists(servers: seq<string>, more: seq<string>)
    requires Distinct(servers) && Distinct(more) && servers != [] && Elements(servers) <= Elements(more)
    ensures Meet(Elements(servers), QuorumGiven(servers), Elements(more), QuorumGiven(more))
       <==> |more| - |servers| <= 1 || (|more| - |servers| == 2 && |servers| % 2 == 0)
  {
    ItoaIsRead(BootstrapExpect(|servers|));
    ItoaIsRead(BootstrapExpect(|more|));
    DistinctSize(servers);
    DistinctSize(more);
    SubsetSize(Elements(servers), Elements(more));
    MeetByCounting(Elements(servers), BootstrapExpect(|servers|), Elements(more), BootstrapExpect(|more|));
  }

  function Others(servers: seq<string>, local: string): seq<string> {
    if servers == [] then [] else
      Others(servers[..|servers| - 1], local)
      + if servers[|servers| - 1] == local then [] else [servers[|servers| - 1]]
  }

  /** The servers joined, in order. */
  function JoinList(isServer: bool, servers: seq<string>, local: string): seq<string> {
    (if isServer then [local] else []) + Others(servers, local)
  }

  function RetryJoinFlag(server: string): string { "-retry-join=" + server }

  function RetryJoin(servers: seq<string>): (args: seq<string>)
    ensures |args| == |servers| && forall i :: 0 <= i < |args| ==> args[i] == RetryJoinFlag(servers[i])
  {
    if servers == [] then [] else
      RetryJoin(servers[..|servers| - 1]) + [RetryJoinFlag(servers[|servers| - 1])]
  }

  lemma RetryJoinNext(servers: seq<string>, server: string)
    ensures RetryJoin(servers + [server]) == RetryJoin(servers) + [RetryJoinFlag(server)]
  {
    assert (servers + [server])[..|servers|] == servers;
  }

  /** The value that follows an option. */
  ghost predicate HasOption(args: seq<string>, option: string, value: string) {
    exists i :: 0 < i < |args| && args[i] == value && args[i - 1] == option
  }

  /** What Consul is told, read off the command line. */
  ghost predicate Tells(args: seq<string>, isServer: bool, servers: seq<string>, local: string) {
    && |args| >= 2 && args[0] == "/usr/bin/consul" && args[1] == "agent"
    && ("-server" in args <==> isServer)
    && ("-bootstrap-expect" in args <==> isServer)
    && (isServer ==> exists n :: HasOption(args, "-bootstrap-expect", n) && Decimal(n) == |servers| / 2 + 1)
    && HasOption(args, "-config-dir", "/etc/zextras/service-discover/")
    && (forall server :: "-retry-join=" + server in args <==> if server == local then isServer else server in servers)
  }

  lemma FlagsDiffer(a: string, b: string)
    ensures RetryJoinFlag(a) == RetryJoinFlag(b) <==> a == b
    ensures RetryJoinFlag(a) == "-retry-join=" + a && RetryJoinFlag(a)[1] == 'r'
  {
    assert RetryJoinFlag(a)[12..] == a && RetryJoinFlag(b)[12..] == b;
  }

  lemma JoinsHas(servers: seq<string>, server: string)
    ensures "-retry-join=" + server in RetryJoin(servers) <==> server in servers
  {
    var args := RetryJoin(servers);
    FlagsDiffer(server, server);
    if i :| 0 <= i < |servers| && servers[i] == server {
      assert args[i] == RetryJoinFlag(server);
    }
    if i :| 0 <= i < |args| && args[i] == "-retry-join=" + server {
      FlagsDiffer(servers[i], server);
    }
  }

  lemma JoinsAreJoins(servers: seq<string>, arg: string)
    requires arg in RetryJoin(servers)
    ensures |arg| > 1 && arg[1] == 'r'
  {
    var i :| 0 <= i < |servers| && RetryJoin(servers)[i] == arg;
    FlagsDiffer(servers[i], servers[i]);
  }

  lemma {:induction false} OthersHas(servers: seq<string>, local: string, server: string)
    ensures server in Others(servers, local) <==> server in servers && server != local
  {
    if servers != [] {
      OthersHas(servers[..|servers| - 1], local, server);
      assert servers == servers[..|servers| - 1] + [servers[|servers| - 1]];
    }
  }

  lemma JoinListHas(isServer: bool, servers: seq<string>, local: string, server: string)
    ensures server in JoinList(isServer, servers, local) <==> if server == local then isServer else server in servers
  {
    OthersHas(servers, local, server);
  }

  /** The fixed part of the command line holds no join, and "-server" and "-bootstrap-expect" for a server only. */
  lemma HeaderTells(isServer: bool, n: nat)
    ensures var header := Header(isServer, n);
      && |header| >= 4 && header[0] == "/usr/bin/consul" && header[1] == "agent"
      && ("-server" in header <==> isServer) && ("-bootstrap-expect" in header <==> isServer)
      && (isServer ==> exists q :: HasOption(header, "-bootstrap-expect", q) && Decimal(q) == n / 2 + 1)
      && HasOption(header, "-config-dir", "/etc/zextras/service-discover/")
      && (forall arg :: arg in header ==> |arg| > 1 && arg[1] == 'r' ==> arg[0] != '-')
  {
    ItoaIsRead(BootstrapExpect(n));
    var header := Header(isServer, n);
    assert isServer ==> header[6] == "-server" && AreDigits(header[3]);
    if isServer {
      assert HasOption(header, header[2], header[3]) && HasOption(header, header[4], header[5]);
    } else {
      assert HasOption(header, header[2], header[3]);
    }
  }

  lemma OptionStays(header: seq<string>, joins: seq<string>, option: string, value: string)
    requires HasOption(header, option, value)
    ensures HasOption(header + joins, option, value)
  {
    var i :| 0 < i < |header| && header[i] == value && header[i - 1] == option;
    assert (header + joins)[i] == value && (header + joins)[i - 1] == option;
  }

  /** A command line that starts with this header says what the header says, whatever joins follow. */
  lemma OptionsTold(isServer: bool, n: nat, joins: seq<string>)
    requires "-server" !in joins && "-bootstrap-expect" !in joins
    ensures var args := Header(isServer, n) + joins;
      && |args| >= 2 && args[0] == "/usr/bin/consul" && args[1] == "agent"
      && ("-server" in args <==> isServer) && ("-bootstrap-expect" in args <==> isServer)
      && (isServer ==> exists q :: HasOption(args, "-bootstrap-expect", q) && Decimal(q) == n / 2 + 1)
      && HasOption(args, "-config-dir", "/etc/zextras/service-discover/")
  {
    hide *;
    HeaderTells(isServer, n);
    OptionStays(Header(isServer, n), joins, "-config-dir", "/etc/zextras/service-discover/");
    if isServer {
      var q :| HasOption(Header(isServer, n), "-bootstrap-expect", q) && Decimal(q) == n / 2 + 1;
      OptionStays(Header(isServer, n), joins, "-bootstrap-expect", q);
    }
  }

  lemma JoinsTold(isServer: bool, servers: seq<string>, local: string, server: string)
    ensures "-retry-join=" + server in Header(isServer, |servers|) + RetryJoin(JoinList(isServer, servers, local))
       <==> if server == local then isServer else server in servers
  {
    var flag := "-retry-join=" + server;
    HeaderTells(isServer, |servers|);
    JoinsHas(JoinList(isServer, servers, local), server);
    JoinListHas(isServer, servers, local, server);
    assert |flag| > 1 && flag[0] == '-' && flag[1] == 'r';
  }

  lemma CommandLineTells(isServer: bool, servers: seq<string>, local: string)
    ensures Tells(Header(isServer, |servers|) + RetryJoin(JoinList(isServer, servers, local)), isServer, servers, local)
  {
    var joins := RetryJoin(JoinList(isServer, servers, local));
    forall arg | arg in joins ensures arg != "-server" && arg != "-bootstrap-expect" {
      JoinsAreJoins(JoinList(isServer, servers, local), arg);
    }
    OptionsTold(isServer, |servers|, joins);
    forall server
      ensures "-retry-join=" + server in Header(isServer, |servers|) + joins
         <==> if server == local then isServer else server in servers
    {
      JoinsTold(isServer, servers, local, server);
    }
  }

  /** The loop over the listed servers: joins all but the local one, and notes whether that was among them. */
  method JoinServers(header: seq<string>, isServer: bool, servers: seq<string>, localServer: string)
    returns (args: seq<string>, found: bool)
    ensures found <==> localServer in servers
    ensures args == header + RetryJoin(JoinList(isServer, servers, localServer))
  {
    args, found := header, false;
    if isServer {
      args := args + [RetryJoinFlag(localServer)];
    }
    ghost var joins := RetryJoin(JoinList(isServer, [], localServer));
    JoinStarts(header, isServer, localServer);
    assert servers[..0] == [];
    for i := 0 to |servers|
      invariant found <==> localServer in servers[..i]
      invariant args == header + joins && joins == RetryJoin(JoinList(isServer, servers[..i], localServer))
    {
      var server := servers[i];
      OthersNext(isServer, servers, i, localServer);
      if localServer != server {
        AppendOne(header, joins, RetryJoinFlag(server));
        args, joins := args + [RetryJoinFlag(server)], joins + [RetryJoinFlag(server)];
      } else {
        found := true;
      }
    }
    assert servers[..|servers|] == servers;
  }

  lemma AppendOne(header: seq<string>, joins: seq<string>, flag: string)
    ensures (header + joins) + [flag] == header + (joins + [flag])
  {
  }

  lemma JoinStarts(header: seq<string>, isServer: bool, local: string)
    ensures header + RetryJoin(JoinList(isServer, [], local))
         == if isServer then header + [RetryJoinFlag(local)] else header
  {
    var start := JoinList(isServer, [], local);
    assert start == if isServer then [local] else [];
    assert RetryJoin(start) == if isServer then [RetryJoinFlag(local)] else [];
  }

  /**
   * Consul is started as a server exactly when the local host is in the list, as an agent exactly when it is not, and
   * told what its role needs; otherwise the daemon stops with the LDAP exit code.
   */
  method StartConsul(isServer: bool, servers: seq<string>, localServer: string, shell: string, notifySocket: string)
    returns (r: Start)
    ensures r == if isServer <==> localServer in servers
                 then Exec(Header(isServer, |servers|) + RetryJoin(JoinList(isServer, servers, localServer)),
                           (if shell == "" then [] else ["SHELL=" + shell])
                           + (if notifySocket == "" then [] else ["NOTIFY_SOCKET=" + notifySocket]))
                 else Refused(1004)
    ensures r.Exec? ==> Tells(r.args, isServer, servers, localServer)
  {
    CommandLineTells(isServer, servers, localServer);
    var args, found := JoinServers(Header(isServer, |servers|), isServer, servers, localServer);
    if isServer && !found {
      return Refused(EXIT_CODE_LDAP_ERROR);
    }
    if !isServer && found {
      return Refused(EXIT_CODE_LDAP_ERROR);
    }
    var envs := [];
    if shell != "" {
      envs := envs + ["SHELL=" + shell];
    }
    if notifySocket != "" {
      envs := envs + ["NOTIFY_SOCKET=" + notifySocket];
    }
    return Exec(args, envs);
  }

  lemma OthersNext(isServer: bool, servers: seq<string>, i: nat, local: string)
    requires i < |servers|
    ensures local in servers[..i + 1] <==> local in servers[..i] || local == servers[i]
    ensures RetryJoin(JoinList(isServer, servers[..i + 1], local))
         == RetryJoin(JoinList(isServer, servers[..i], local))
            + if servers[i] == local then [] else [RetryJoinFlag(servers[i])]
  {
    var front, whole := servers[..i], servers[..i + 1];
    assert whole == front + [servers[i]] && whole[..i] == front;
    if servers[i] == local {
      assert JoinList(isServer, whole, local) == JoinList(isServer, front, local);
    } else {
      assert JoinList(isServer, whole, local) == JoinList(isServer, front, local) + [servers[i]];
      RetryJoinNext(JoinList(isServer, front, local), servers[i]);
    }
  }

  lemma {:induction false} OthersOfAbsent(servers: seq<string>, local: string)
    requires local !in servers
    ensures Others(servers, local) == servers
  {
    if servers != [] {
      OthersOfAbsent(servers[..|servers| - 1], local);
      assert servers == servers[..|servers| - 1] + [servers[|servers| - 1]];
    }
  }

  lemma {:induction false} OthersOfPresent(servers: seq<string>, local: string, i: nat)
    requires Distinct(servers) && i < |servers| && servers[i] == local
    ensures Others(servers, local) == servers[..i] + servers[i + 1..]
  {
    var front, last := servers[..|servers| - 1], servers[|servers| - 1];
    if i == |servers| - 1 {
      OthersOfAbsent(front, local);
      assert servers[..i] == front && servers[i + 1..] == [];
    } else {
      OthersOfPresent(front, local, i);
      assert servers[i + 1..] == front[i + 1..] + [last] && servers[..i] == front[..i];
    }
  }

  lemma LocalFirst(servers: seq<string>, local: string) returns (i: nat)
    requires Distinct(servers) && local in servers
    ensures i < |servers| && servers[i] == local
    ensures JoinList(true, servers, local) == [local] + (servers[..i] + servers[i + 1..])
  {
    i :| 0 <= i < |servers| && servers[i] == local;
    OthersOfPresent(servers, local, i);
  }

  /**
   * For a distinct list: a started server joins every listed server exactly once, itself first and the rest in LDAP
   * order; a started agent joins exactly the list, in order.
   */
  lemma EveryServerJoinedOnce(isServer: bool, servers: seq<string>, local: string)
    requires Distinct(servers) && (isServer <==> local in servers)
    ensures var joined := JoinList(isServer, servers, local);
            && multiset(joined) == multiset(servers)
            && (isServer ==> exists i :: 0 <= i < |servers| && joined == [local] + (servers[..i] + servers[i + 1..]))
            && (!isServer ==> joined == servers)
  {
    if isServer {
      var i := LocalFirst(servers, local);
      MoveToFront(servers, i);
    } else {
      OthersOfAbsent(servers, local);
      assert [] + servers == servers;
    }
  }
}
