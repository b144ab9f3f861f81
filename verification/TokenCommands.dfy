/** The commands themselves: `ensureServiceToken` and `pruneLegacyServiceTokens`, proved to follow their automata. */
module TokenCommands {
  import opened GoText
  import opened ServiceTokens

  /**
   * The serviceTokenACL interface. Any well-typed reply may come back, but a call is allowed only when the automaton
   * of the command in progress asks for exactly that request.
   */
  class ServiceTokenAcl {
    /** How many commands have begun, the last of them, its replies so far, and where they have brought it. */
    ghost var begun: nat
    ghost var command: Process
    ghost var replies: seq<Reply>
    ghost var caller: Process

    constructor ()
      ensures Valid() && begun == 0
    {
      begun, command, replies, caller := 0, Ensure("", "", EnsureStart), [], Ensure("", "", EnsureStart);
    }

    ghost predicate Valid()
      reads this
    {
      caller == React(command, replies) && Answered(command, replies)
    }

    /** A command begins with no request made. */
    ghost method Begin(p: Process)
      requires AtStart(p)
      modifies this
      ensures Valid() && begun == old(begun) + 1 && command == caller == p && replies == []
    {
      begun, command, replies, caller := begun + 1, p, [], p;
    }

    ghost method Answer(r: Reply)
      requires Valid() && Asks(caller).Some? && Answers(Asks(caller).value, r)
      modifies this`replies, this`caller
      ensures Valid() && replies == old(replies) + [r] && caller == After(old(caller), r)
    {
      assert (replies + [r])[..|replies|] == replies;
      replies, caller := replies + [r], After(caller, r);
    }

    method NodeName() returns (r: Result<string, ApiError>)
      requires Valid() && Asks(caller) == Some(AskNodeName)
      modifies this`replies, this`caller
      ensures Valid()
      ensures caller == After(old(caller), match r case Ok(n) => NodeNameIs(n) case Err(e) => Failed(e))
    {
      r := *;
      Answer(match r case Ok(n) => NodeNameIs(n) case Err(e) => Failed(e));
    }

    method TokenRead(a: Accessor) returns (r: Result<Token, ApiError>)
      requires Valid() && Asks(caller) == Some(ReadToken(a))
      modifies this`replies, this`caller
      ensures Valid()
      ensures caller == After(old(caller), match r case Ok(t) => TokenIs(t) case Err(e) => Failed(e))
    {
      r := *;
      Answer(match r case Ok(t) => TokenIs(t) case Err(e) => Failed(e));
    }

    method TokenCreate(t: Token) returns (r: Result<Token, ApiError>)
      requires Valid() && Asks(caller) == Some(CreateToken(t))
      modifies this`replies, this`caller
      ensures Valid()
      ensures caller == After(old(caller), match r case Ok(c) => Created(c) case Err(e) => Failed(e))
    {
      r := *;
      Answer(match r case Ok(c) => Created(c) case Err(e) => Failed(e));
    }

    method TokenUpdate(t: Token) returns (r: Option<ApiError>)
      requires Valid() && Asks(caller) == Some(UpdateToken(t))
      modifies this`replies, this`caller
      ensures Valid()
      ensures caller == After(old(caller), match r case None => Updated case Some(e) => Failed(e))
    {
      r := *;
      Answer(match r case None => Updated case Some(e) => Failed(e));
    }

    method TokenListByPolicy(policy: string) returns (r: Result<seq<ListEntry>, ApiError>)
      requires Valid() && Asks(caller) == Some(ListByPolicy(policy))
      modifies this`replies, this`caller
      ensures Valid()
      ensures caller == After(old(caller), match r case Ok(es) => Entries(es) case Err(e) => Failed(e))
    {
      r := *;
      Answer(match r case Ok(es) => Entries(es) case Err(e) => Failed(e));
    }

    method TokenDelete(a: Accessor) returns (r: Option<ApiError>)
      requires Valid() && Asks(caller) == Some(DeleteToken(a))
      modifies this`replies, this`caller
      ensures Valid()
      ensures caller == After(old(caller), match r case None => Deleted case Some(e) => Failed(e))
    {
      r := *;
      Answer(match r case None => Deleted case Some(e) => Failed(e));
    }
  }

  /** Exactly this command has run, and is where the replies to its own requests have brought it. */
  twostate predicate Ran(acl: ServiceTokenAcl, p: Process)
    reads acl
  {
    acl.Valid() && acl.begun == old(acl.begun) + 1 && acl.command == p
  }

  /** The state in which an ensure that returns `r` has ended. */
  ghost predicate EnsureReturns(p: Process, service: string, policy: string, r: Result<string, Failure>) {
    && p.Ensure? && p.service == service && p.policy == policy
    && match r
       case Ok(secret) => p.ensure.Ensured? && p.ensure.secret == secret
       case Err(why) => p.ensure == EnsureFailed(why)
  }

  method EnsureServiceToken(acl: ServiceTokenAcl, service: string, policy: string) returns (r: Result<string, Failure>)
    modifies acl
    ensures Ran(acl, Ensure(service, policy, EnsureStart))
    ensures EnsureReturns(acl.caller, service, policy, r)
  {
    hide React, Answered;
    acl.Begin(Ensure(service, policy, EnsureStart));
    var node := acl.NodeName();
    if node.Err? {
      return Err(NodeNameUnreadable(node.error));
    }
    var accessorID := ServiceTokenAccessorID(service, node.value);
    var token := acl.TokenRead(accessorID);
    if token.Err? && IsTokenNotFound(token.error) {
      var created := acl.TokenCreate(NewToken(service, node.value, policy));
      if created.Ok? {
        return Ok(created.value.secret);
      }
      token := acl.TokenRead(accessorID);
      if token.Err? {
        return Err(CreateFailed(created.error));
      }
    }
    if token.Err? {
      return Err(ReadFailed(token.error));
    }
    var t := token.value;
    if !IsSecretID(t.secret) {
      return Err(SecretRedacted);
    }
    if policy !in t.policies {
      t := t.(policies := t.policies + [policy]);
      var failed := acl.TokenUpdate(t);
      if failed.Some? {
        return Err(LinkFailed(failed.value));
      }
    }
    return Ok(t.secret);
  }

  datatype PruneResult = PruneResult(deleted: seq<Accessor>, error: Option<Failure>)

  ghost predicate PruneReturns(p: Process, start: Process, r: PruneResult)
    requires start.Prune?
  {
    p == start.(prune := match r.error case None => Pruned(r.deleted) case Some(why) => PruneFailed(r.deleted, why))
  }

  method PruneLegacyServiceTokens(acl: ServiceTokenAcl, service: string, legacyNames: seq<string>, policy: string,
                                  hostnames: seq<string>) returns (r: PruneResult)
    modifies acl
    ensures Ran(acl, Prune(service, policy, legacyNames, hostnames, PruneStart))
    ensures PruneReturns(acl.caller, Prune(service, policy, legacyNames, hostnames, PruneStart), r)
  {
    hide React, Answered;
    ghost var start := Prune(service, policy, legacyNames, hostnames, PruneStart);
    acl.Begin(start);
    var node := acl.NodeName();
    if node.Err? {
      return PruneResult([], Some(NodeNameUnreadable(node.error)));
    }
    var current := ServiceTokenAccessorID(service, node.value);
    var read := acl.TokenRead(current);
    if read.Err? && IsTokenNotFound(read.error) {
      return PruneResult([], Some(NotEnsured));
    }
    if read.Err? {
      return PruneResult([], Some(ReadFailed(read.error)));
    }
    var tokens := acl.TokenListByPolicy(policy);
    if tokens.Err? {
      return PruneResult([], Some(ListFailed(tokens.error)));
    }
    r := DeleteMatching(acl, start, node.value, tokens.value, current, legacyNames, hostnames);
  }

  /** The loop over the listed tokens. */
  method DeleteMatching(acl: ServiceTokenAcl, ghost start: Process, ghost node: string, entries: seq<ListEntry>,
                        current: Accessor, legacyNames: seq<string>, hostnames: seq<string>) returns (r: PruneResult)
    requires start.Prune? && acl.Valid()
    requires acl.caller == start.(prune := Continue(node, Matching(entries, current, legacyNames, hostnames), []))
    modifies acl`replies, acl`caller
    ensures acl.Valid() && PruneReturns(acl.caller, start, r)
  {
    hide React, Answered;
    var deleted := [];
    assert entries[0..] == entries;
    for i := 0 to |entries|
      invariant acl.Valid()
      invariant acl.caller
             == start.(prune := Continue(node, Matching(entries[i..], current, legacyNames, hostnames), deleted))
    {
      var entry := entries[i];
      ghost var rest := Matching(entries[i + 1..], current, legacyNames, hostnames);
      MatchingNext(entries, i, current, legacyNames, hostnames);
      if Skips(entry, current, legacyNames, hostnames) {
        continue;
      }
      DeleteNext(start, node, entry.accessor, rest, deleted);
      var failed := acl.TokenDelete(entry.accessor);
      if failed.Some? {
        return PruneResult(deleted, Some(DeleteFailed(entry.accessor, failed.value)));
      }
      deleted := deleted + [entry.accessor];
    }
    return PruneResult(deleted, None);
  }

  lemma MatchingNext(entries: seq<ListEntry>, i: nat, current: Accessor, legacyNames: seq<string>,
                     hostnames: seq<string>)
    requires i < |entries|
    ensures var rest := Matching(entries[i + 1..], current, legacyNames, hostnames);
            Matching(entries[i..], current, legacyNames, hostnames)
            == if Skips(entries[i], current, legacyNames, hostnames) then rest else [entries[i].accessor] + rest
  {
    assert entries[i..][1..] == entries[i + 1..];
  }

  /** With `a` next to delete, the automaton asks for just that and moves on, or ends with what is deleted so far. */
  lemma DeleteNext(start: Process, node: string, a: Accessor, rest: seq<Accessor>, deleted: seq<Accessor>)
    requires start.Prune?
    ensures var p := start.(prune := Continue(node, [a] + rest, deleted));
            && Asks(p) == Some(DeleteToken(a))
            && After(p, Deleted) == start.(prune := Continue(node, rest, deleted + [a]))
            && forall e :: After(p, Failed(e)) == start.(prune := PruneFailed(deleted, DeleteFailed(a, e)))
  {
    assert ([a] + rest)[0] == a && ([a] + rest)[1..] == rest;
  }
}
