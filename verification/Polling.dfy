/** The bounded waits of the setup, against an explicit clock in milliseconds. */
module Polling {
  import opened GoText

  // ---- waitForConsulLeader

  /** One leader lookup; `end` is when the clock is next read. */
  datatype Poll = Poll(start: int, end: int, leader: string, failed: bool)

  predicate SeesLeader(p: Poll) { !p.failed && p.leader != "" }

  datatype WaitError = TimeoutWithError | TimeoutWithoutLeader

  class Agent {
    var now: int
    ghost var polls: seq<Poll>

    constructor (now: int)
      ensures this.now == now && polls == []
    {
      this.now, polls := now, [];
    }

    /** Takes any time and gives any answer. */
    method ConsulLeader() returns (leader: string, failed: bool)
      modifies this
      ensures now >= old(now) && polls == old(polls) + [Poll(old(now), now, leader, failed)]
    {
      var took: nat :| took >= 0;
      leader, failed := *, *;
      polls := polls + [Poll(now, now + took, leader, failed)];
      now := now + took;
    }

    /** time.Sleep pauses at least that long. */
    method Sleep(d: nat)
      modifies this`now
      ensures now >= old(now) + d
    {
      var more: nat :| more >= 0;
      now := now + d + more;
    }
  }

  lemma PollsFit(n: nat, interval: nat, timeout: nat)
    requires interval > 0 && n * interval <= timeout
    ensures n <= timeout / interval
  {
    var q, r := timeout / interval, timeout % interval;
    assert timeout == q * interval + r && r < interval;
    assert (n - q) * interval == n * interval - q * interval;
    AtLeastOne(n - q, interval);
  }

  lemma AtLeastOne(a: int, b: nat)
    ensures a >= 1 ==> a * b >= b
  {
  }

  /** All polls are answered in time, and those that begin late enough see the leader. */
  ghost predicate LeaderStableFrom(polls: seq<Poll>, from: int, requestTimeout: int) {
    forall i :: 0 <= i < |polls| ==>
      polls[i].end - polls[i].start <= requestTimeout && (polls[i].start >= from ==> SeesLeader(polls[i]))
  }

  /**
   * At most timeout/interval + 2 polls, all but the last without a leader. It succeeds exactly when the last poll
   * sees one, fails only past the deadline, and cannot fail when a leader is stably visible from one request
   * timeout before the deadline.
   */
  method WaitForConsulLeader(agent: Agent, interval: nat, timeout: nat, ghost requestTimeout: nat)
    returns (r: Option<WaitError>, ghost polls: seq<Poll>)
    requires interval > 0
    modifies agent
    ensures agent.polls == old(agent.polls) + polls
    ensures 1 <= |polls| <= timeout / interval + 2
    ensures forall i :: 0 <= i < |polls| - 1 ==> !SeesLeader(polls[i])
    ensures r.None? <==> SeesLeader(polls[|polls| - 1])
    ensures r.Some? ==> polls[|polls| - 1].end > old(agent.now) + timeout
    ensures LeaderStableFrom(polls, old(agent.now) + timeout - requestTimeout, requestTimeout) ==> r.None?
  {
    var deadline := agent.now + timeout;
    polls := [];
    while true
      invariant agent.polls == old(agent.polls) + polls
      invariant |polls| <= timeout / interval + 1
      invariant agent.now >= old(agent.now) + |polls| * interval
      invariant forall i :: 0 <= i < |polls| ==> !SeesLeader(polls[i])
      decreases timeout / interval + 1 - |polls|
    {
      ghost var started := agent.now;
      var leader, failed := agent.ConsulLeader();
      ghost var n := |polls|;
      polls := polls + [Poll(started, agent.now, leader, failed)];
      if !failed && leader != "" {
        return None, polls;
      }
      if agent.now > deadline {
        return if failed then Some(TimeoutWithError) else Some(TimeoutWithoutLeader), polls;
      }
      PollsFit(n, interval, timeout);
      assert (n + 1) * interval == n * interval + interval;
      agent.Sleep(interval);
    }
  }

  // ---- CreateACLToken

  datatype AclError = EnvironmentRefused | CreationFailed | UndecodableResponse

  const CONSUL_HTTP_TOKEN := "CONSUL_HTTP_TOKEN"

  /** What a token create printed: `None` on failure, `Some(None)` when it cannot be decoded. */
  type Output = Option<Option<string>>

  /** A token create, and whether the creation of its policy was tried since the one before. */
  datatype Create = Create(start: int, afterPolicy: bool, output: Output)

  /**
   * The Consul command line, with the output of each token create. `luck` is how often a select that is looked at
   * only when both its channels are ready will still pick the timer after the deadline.
   */
  class Shell {
    var now: int
    var env: map<string, string>
    ghost var creates: seq<Create>
    /** The tokens given to set-agent-token with its answers, and the root token each call found in its environment. */
    ghost var agentTokens: seq<(string, bool)>
    ghost var used: seq<string>
    /** A policy create since the last token create. */
    ghost var policyTried: bool
    var luck: nat

    constructor (now: int, env: map<string, string>, luck: nat)
      ensures this.now == now && this.env == env && creates == [] && agentTokens == [] && used == []
      ensures this.luck == luck && !policyTried
    {
      this.now, this.env, this.luck := now, env, luck;
      creates, agentTokens, used, policyTried := [], [], [], false;
    }

    /** os.Setenv, which refuses a value with a NUL byte. */
    method SetEnv(key: string, value: string) returns (ok: bool)
      modifies this`env
      ensures ok <==> '\0' !in value
      ensures env == if ok then old(env)[key := value] else old(env)
    {
      ok := '\0' !in value;
      if ok {
        env := env[key := value];
      }
    }

    method CreatePolicy()
      requires CONSUL_HTTP_TOKEN in env
      modifies this`now, this`used, this`policyTried
      ensures policyTried && now >= old(now) && used == old(used) + [env[CONSUL_HTTP_TOKEN]]
    {
      var took: nat :| took >= 0;
      now, used, policyTried := now + took, used + [env[CONSUL_HTTP_TOKEN]], true;
    }

    method CreateToken() returns (r: Output)
      requires CONSUL_HTTP_TOKEN in env
      modifies this`now, this`creates, this`used, this`policyTried
      ensures !policyTried && now >= old(now) && used == old(used) + [env[CONSUL_HTTP_TOKEN]]
      ensures creates == old(creates) + [Create(old(now), old(policyTried), r)]
    {
      var took: nat :| took >= 0;
      r := *;
      creates, used := creates + [Create(now, policyTried, r)], used + [env[CONSUL_HTTP_TOKEN]];
      now, policyTried := now + took, false;
    }

    method SetAgentToken(token: string) returns (ok: bool)
      requires CONSUL_HTTP_TOKEN in env
      modifies this`now, this`agentTokens, this`used
      ensures now >= old(now) && used == old(used) + [env[CONSUL_HTTP_TOKEN]]
      ensures agentTokens == old(agentTokens) + [(token, ok)]
    {
      var took: nat :| took >= 0;
      ok := *;
      now, agentTokens, used := now + took, agentTokens + [(token, ok)], used + [env[CONSUL_HTTP_TOKEN]];
    }

    /**
     * Waits for a second or for the context. The first to be ready wins, unless the goroutine is paused until both
     * are, when either may.
     */
    method SecondOrDone(deadline: int) returns (again: bool)
      modifies this`now, this`luck
      ensures now >= old(now) && luck <= old(luck)
      ensures again ==> now >= old(now) + 1000
      ensures again ==> (if old(now) + 1000 <= deadline then luck == old(luck) else luck == old(luck) - 1)
      ensures !again ==> now >= deadline && luck == old(luck)
    {
      var more: nat :| more >= 0;
      var late, pick: bool := now + 1000 > deadline, *;
      again := pick && (!late || luck > 0);
      now := (if again || now >= deadline then now else deadline) + (if again then 1000 else 0) + more;
      if again && late {
        luck := luck - 1;
      }
    }
  }

  /** The output of a token create as the result of the whole. */
  function Verdict(output: Output): Result<string, AclError> {
    match output
    case None => Err(CreationFailed)
    case Some(None) => Err(UndecodableResponse)
    case Some(Some(secret)) => Ok(secret)
  }

  /** These creates began at least a second apart, so no more than 31 within 30 seconds. */
  ghost predicate Spaced(creates: seq<Create>, start: int) {
    forall i :: 0 <= i < |creates| ==> creates[i].start >= start + 1000 * i
  }

  /** Every call since `before` was made with this root token. */
  ghost predicate UsedOnly(before: seq<string>, after: seq<string>, rootToken: string) {
    before <= after && forall i :: |before| <= i < |after| ==> after[i] == rootToken
  }

  /** All but the last of these failed. */
  ghost predicate FailedButLast(creates: seq<Create>) {
    creates != [] && forall i :: 0 <= i < |creates| - 1 ==> creates[i].output.None?
  }

  /**
   * Every token create but the last has failed, so none follows a successful one, and each comes after an attempt of
   * its own to create the policy. They begin at least a second apart, so at most 31 begin by the deadline; after it
   * each takes a lucky select. It gives up only past the deadline. The root token is in the environment at every call
   * and no longer; one that cannot be put there leaves everything as it was.
   */
  method CreateACLToken(shell: Shell, rootToken: string)
    returns (r: Result<string, AclError>, ghost creates: seq<Create>)
    modifies shell`now, shell`env, shell`creates, shell`used, shell`policyTried, shell`luck
    ensures shell.creates == old(shell.creates) + creates && shell.now >= old(shell.now)
    ensures UsedOnly(old(shell.used), shell.used, rootToken)
    ensures r == Err(EnvironmentRefused) <==> '\0' in rootToken
    ensures '\0' in rootToken ==> creates == [] && shell.env == old(shell.env)
    ensures '\0' !in rootToken ==>
      && FailedButLast(creates) && Spaced(creates, old(shell.now))
      && (forall i :: 0 <= i < |creates| ==> creates[i].afterPolicy)
      && |creates| <= 31 + (old(shell.luck) - shell.luck)
      && (match creates[|creates| - 1].output
          case None => r == Err(CreationFailed)
          case Some(None) => r == Err(UndecodableResponse)
          case Some(Some(secret)) => r == Ok(secret))
      && (r == Err(CreationFailed) ==> shell.now >= old(shell.now) + 30000)
      && shell.env == old(shell.env) - {CONSUL_HTTP_TOKEN}
  {
    creates := [];
    var isSet := shell.SetEnv(CONSUL_HTTP_TOKEN, rootToken);
    if !isSet {
      return Err(EnvironmentRefused), creates;
    }
    var deadline := shell.now + 30000;
    ghost var early := 0;
    while true
      invariant shell.env == old(shell.env)[CONSUL_HTTP_TOKEN := rootToken]
      invariant shell.creates == old(shell.creates) + creates && UsedOnly(old(shell.used), shell.used, rootToken)
      invariant forall i :: 0 <= i < |creates| ==> creates[i].output.None? && creates[i].afterPolicy
      invariant Spaced(creates, deadline - 30000) && shell.now >= deadline - 30000 + 1000 * |creates|
      invariant 0 <= early <= 30 && shell.luck <= old(shell.luck)
      invariant |creates| == early + (old(shell.luck) - shell.luck)
      decreases 30 - early + shell.luck
    {
      shell.CreatePolicy();
      ghost var start := shell.now;
      var output := shell.CreateToken();
      creates := creates + [Create(start, true, output)];
      if output.Some? {
        shell.env := shell.env - {CONSUL_HTTP_TOKEN};
        return Verdict(output), creates;
      }
      ghost var luck := shell.luck;
      var again := shell.SecondOrDone(deadline);
      if !again {
        shell.env := shell.env - {CONSUL_HTTP_TOKEN};
        return Err(CreationFailed), creates;
      }
      early := early + if shell.luck == luck then 1 else 0;
    }
  }

  lemma AtMost31ByTheDeadline(creates: seq<Create>, start: int, i: nat)
    requires Spaced(creates, start) && i < |creates| && creates[i].start <= start + 30000
    ensures i < 31
  {
  }

  /** The same environment for the one call that gives the local agent its token, whose answer is the result. */
  method SetACLToken(shell: Shell, token: string, rootToken: string) returns (ok: bool)
    modifies shell`now, shell`env, shell`agentTokens, shell`used
    ensures UsedOnly(old(shell.used), shell.used, rootToken)
    ensures '\0' in rootToken ==> !ok && shell.agentTokens == old(shell.agentTokens) && shell.env == old(shell.env)
    ensures '\0' !in rootToken ==> shell.agentTokens == old(shell.agentTokens) + [(token, ok)]
    ensures '\0' !in rootToken ==> shell.env == old(shell.env) - {CONSUL_HTTP_TOKEN}
  {
    ok := shell.SetEnv(CONSUL_HTTP_TOKEN, rootToken);
    if ok {
      ok := shell.SetAgentToken(token);
      shell.env := shell.env - {CONSUL_HTTP_TOKEN};
    }
  }
}
