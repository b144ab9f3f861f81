/**
 * When a command succeeds: what its answers must be, stated apart from the automata, and that it does succeed under
 * every interleaving when Consul answers all its calls.
 */
module Outcomes {
  import opened GoText
  import opened ServiceTokens
  import opened TokenRuns

  ghost predicate Holds(text: string, part: string) { exists before, after :: text == before + part + after }

  lemma ContainsHolds(text: string, part: string)
    ensures Contains(text, part) <==> Holds(text, part)
  {
    if Contains(text, part) {
      var i :| 0 <= i <= |text| && part <= text[i..];
      assert text == text[..i] + part + text[i + |part|..];
    }
    if Holds(text, part) {
      var before, after :| text == before + part + after;
      assert text[|before|..] == part + after;
    }
  }

  /** Consul's answer for a missing token: 404 on current versions, 403 "ACL not found" on older ones. */
  ghost predicate SaysMissing(e: ApiError) {
    e.Status? && (e.code == 404 || (e.code == 403 && Holds(e.body, "ACL not found")))
  }

  lemma NotFoundMeansMissing(e: ApiError)
    ensures IsTokenNotFound(e) <==> SaysMissing(e)
  {
    if e.Status? {
      ContainsHolds(e.body, "ACL not found");
    }
  }

  /** A failed read leads to a create, and to exactly this one, when Consul says that the token is missing. */
  lemma MissingTokenIsCreated(service: string, policy: string, node: string, e: ApiError)
    ensures var q := After(Ensure(service, policy, Reading(node)), Failed(e));
      if SaysMissing(e) then
        Asks(q) == Some(CreateToken(
          Token(Derived(service + "/" + node), "", "carbonio/" + service + "/" + node, [policy])))
      else q.Ensure? && q.ensure == EnsureFailed(ReadFailed(e))
  {
    NotFoundMeansMissing(e);
  }

  /** A prune refuses for the same answers, and says so. */
  lemma MissingTokenIsRefused(p: Process, node: string, e: ApiError)
    requires p.Prune? && p.prune == CheckingCurrent(node)
    ensures var q := After(p, Failed(e));
      Asks(q).None? && q.Prune? && q.prune == PruneFailed([], if SaysMissing(e) then NotEnsured else ReadFailed(e))
  {
    NotFoundMeansMissing(e);
  }

  lemma {:induction false} EnsureStays(p: Process, replies: seq<Reply>)
    requires p.Ensure?
    ensures var q := React(p, replies); q.Ensure? && q.service == p.service && q.policy == p.policy
  {
    if replies != [] { EnsureStays(p, replies[..|replies| - 1]); }
  }

  /** The only ways into the first states. */
  lemma EnteredBy(q: Process, r: Reply)
    requires q.Ensure? && Asks(q).Some? && Answers(Asks(q).value, r)
    ensures var s := After(q, r).ensure;
      && (s.Creating? ==> q.ensure.Reading? && r.Failed? && SaysMissing(r.error))
      && (s.Reading? ==> q.ensure.EnsureStart? && r.NodeNameIs?)
      && !s.EnsureStart?
  {
    if r.Failed? {
      NotFoundMeansMissing(r.error);
    }
  }

  lemma StartHasNoReplies(p: Process, replies: seq<Reply>)
    requires p.Ensure? && p.ensure == EnsureStart && Answered(p, replies) && React(p, replies).Ensure?
    requires React(p, replies).ensure.EnsureStart?
    ensures replies == []
  {
    if replies != [] {
      var front, q, r := LastReply(p, replies);
      EnsureStays(p, front);
      EnteredBy(q, r);
      assert false;
    }
  }

  lemma ReadingHasOne(p: Process, replies: seq<Reply>)
    requires p.Ensure? && p.ensure == EnsureStart && Answered(p, replies) && React(p, replies).Ensure?
    requires React(p, replies).ensure.Reading?
    ensures |replies| == 1 && replies[0].NodeNameIs?
  {
    var front, q, r := LastReply(p, replies);
    EnsureStays(p, front);
    EnteredBy(q, r);
    StartHasNoReplies(p, front);
  }

  /** A create is sent only as the third request, after a read answered as missing. */
  lemma CreateNeedsMissing(p: Process, replies: seq<Reply>, t: Token)
    requires p.Ensure? && p.ensure == EnsureStart && Answered(p, replies)
    requires Asks(React(p, replies)) == Some(CreateToken(t))
    ensures |replies| == 2 && replies[0].NodeNameIs? && replies[1].Failed? && SaysMissing(replies[1].error)
  {
    EnsureStays(p, replies);
    var front, q, r := LastReply(p, replies);
    EnsureStays(p, front);
    EnteredBy(q, r);
    ReadingHasOne(p, front);
  }

  // ---- SecretIDs

  ghost predicate HexDigits(s: string, n: nat) { |s| == n && forall i :: 0 <= i < n ==> IsHex(s[i]) }

  /** Groups of 8, 4, 4, 4 and 12 hexadecimal digits. */
  ghost predicate IsCanonicalUuid(s: string) {
    exists a, b, c, d, e ::
      && HexDigits(a, 8) && HexDigits(b, 4) && HexDigits(c, 4) && HexDigits(d, 4) && HexDigits(e, 12)
      && s == a + "-" + b + "-" + c + "-" + d + "-" + e
  }

  lemma SecretIDIsUuid(s: string)
    ensures IsSecretID(s) <==> IsCanonicalUuid(s)
  {
    if IsSecretID(s) {
      var a, b, c, d, e := s[..8], s[9..13], s[14..18], s[19..23], s[24..];
      assert s == a + "-" + b + "-" + c + "-" + d + "-" + e;
      assert HexDigits(a, 8) && HexDigits(b, 4) && HexDigits(c, 4) && HexDigits(d, 4) && HexDigits(e, 12);
    }
  }

  /** A token whose SecretID Consul hides is never adopted. */
  lemma RedactedIsRefused(service: string, policy: string, node: string, t: Token)
    ensures var q := After(Ensure(service, policy, Reading(node)), TokenIs(t.(secret := "<hidden>")));
      q.Ensure? && q.ensure == EnsureFailed(SecretRedacted)
  {
  }

  // ---- When every call is answered

  /** Consul does what it is asked and says so; it refuses only what its rules refuse. */
  ghost predicate Healthy(store: Store, q: Request, r: Reply, store': Store) {
    match q
    case AskNodeName => r.NodeNameIs? && store' == store
    case ReadToken(a) =>
      store' == store && if a in store then r == TokenIs(store[a]) else r.Failed? && SaysMissing(r.error)
    case CreateToken(t) =>
      if t.accessor in store then r.Failed? && store' == store
      else
        && t.accessor in store' && store' == store[t.accessor := t.(secret := store'[t.accessor].secret)]
        && r == Created(store'[t.accessor])
    case UpdateToken(t) =>
      if t.accessor in store && store[t.accessor].secret == t.secret
      then r.Updated? && store' == store[t.accessor := t]
      else r.Failed? && store' == store
    case ListByPolicy(policy) => r.Entries? && Listed(store, policy, r.entries) && store' == store
    case DeleteToken(a) => r.Deleted? && store' == store - {a}
  }

  lemma HealthyIsServed(store: Store, q: Request, r: Reply, store': Store)
    requires Healthy(store, q, r, store')
    ensures Serves(store, q, r, store')
  {
  }

  /** Every call of command `x` is answered; those of the others may fail as they like. */
  ghost predicate HealthyFor(run: seq<System>, steps: seq<Step>, x: nat) {
    forall k {:trigger steps[k]} :: 0 <= k < |steps| && k + 1 < |run| && steps[k].Call? && steps[k].i == x
                                    && x < |run[k].procs| && Asks(run[k].procs[x]).Some? ==>
      Healthy(run[k].store, Asks(run[k].procs[x]).value, steps[k].reply, run[k + 1].store)
  }

  /** Consul gives every token a UUID as its SecretID. */
  ghost predicate SecretsAreUuids(store: Store) {
    forall name :: Derived(name) in store ==> IsCanonicalUuid(store[Derived(name)].secret)
  }

  /** Where a command whose calls are answered can be: it has not failed, but for a prune before its ensure. */
  ghost predicate IsFine(store: Store, p: Process) {
    match p
    case Ensure(service, _, state) =>
      (match state
       case Rereading(node, _) => ServiceTokenAccessorID(service, node) in store
       case EnsureFailed(_) => false
       case _ => true)
    case Prune(_, _, _, _, state) => state.PruneFailed? ==> state.why == NotEnsured && state.deleted == []
  }

  lemma AnsweredIsFine(store: Store, p: Process, r: Reply, store': Store)
    requires Knows(store, p) && IsFine(store, p) && SecretsAreUuids(store)
    requires Asks(p).Some? && Healthy(store, Asks(p).value, r, store')
    ensures IsFine(store', After(p, r))
  {
    if r.Failed? {
      NotFoundMeansMissing(r.error);
    }
    if r.TokenIs? {
      SecretIDIsUuid(r.token.secret);
    }
  }

  lemma OthersLeaveFine(store: Store, p: Process, store': Store)
    requires IsFine(store, p) && Keeps(store, store')
    ensures IsFine(store', p)
  {
  }

  lemma {:induction false} StaysFine(run: seq<System>, steps: seq<Step>, k: nat, x: nat)
    requires IsRun(run, steps) && k < |run| && x < |run[0].procs| && HealthyFor(run, steps, x)
    requires forall j :: 0 <= j < |run| ==> SecretsAreUuids(run[j].store)
    ensures x < |run[k].procs| && IsFine(run[k].store, run[k].procs[x])
  {
    if k == 0 {
      assert AtStart(run[0].procs[x]);
    } else {
      StaysFine(run, steps, k - 1, x);
      StepAt(run, steps, k - 1);
      var before, step, after := run[k - 1], steps[k - 1], run[k];
      assert SecretsAreUuids(before.store) && Knows(before.store, before.procs[x]);
      if step.Call? && step.i == x {
        AnsweredIsFine(before.store, before.procs[x], step.reply, after.store);
      } else {
        OthersLeaveFine(before.store, before.procs[x], after.store);
      }
    }
  }

  /** Requests left at most. */
  function CallsLeft(p: Process): nat
    requires p.Ensure?
  {
    match p.ensure
    case EnsureStart => 5
    case Reading(_) => 4
    case Creating(_) => 3
    case Rereading(_, _) => 2
    case Linking(_, _) => 1
    case _ => 0
  }

  lemma {:induction false} FiveCallsAtMost(p: Process, replies: seq<Reply>)
    requires p.Ensure? && p.ensure == EnsureStart && Answered(p, replies)
    ensures React(p, replies).Ensure? && |replies| + CallsLeft(React(p, replies)) <= 5
    decreases |replies|
  {
    if replies != [] {
      var front, q, r := LastReply(p, replies);
      FiveCallsAtMost(p, front);
      assert CallsLeft(After(q, r)) < CallsLeft(q);
    }
  }

  /**
   * Whatever the other commands do and however their calls fail, an ensure whose own calls are answered returns the
   * secret of the stored token after at most five calls, whether the token was there, was missing, or was created by
   * another ensure between its read and its create.
   */
  lemma AnsweredEnsureSucceeds(run: seq<System>, steps: seq<Step>, k: nat, x: nat)
    requires IsRun(run, steps) && k < |run| && x < |run[0].procs| && run[0].procs[x].Ensure?
    requires HealthyFor(run, steps, x) && forall j :: 0 <= j < |run| ==> SecretsAreUuids(run[j].store)
    ensures |RepliesTo(steps[..k], x)| <= 5 && x < |run[k].procs| && run[k].procs[x].Ensure?
    ensures Asks(run[k].procs[x]).None? || |RepliesTo(steps[..k], x)| == 5 ==>
      var p := run[k].procs[x];
      && p.ensure.Ensured?
      && var a := ServiceTokenAccessorID(p.service, p.ensure.node);
         a in run[k].store && run[k].store[a].secret == p.ensure.secret
  {
    StaysFine(run, steps, k, x);
    RunReacts(run, steps, k, x);
    assert AtStart(run[0].procs[x]);
    FiveCallsAtMost(run[0].procs[x], RepliesTo(steps[..k], x));
    RunInvariant(run, steps, k);
    assert Knows(run[k].store, run[k].procs[x]);
  }

  /** A prune whose calls are answered succeeds, unless the deterministic token was missing when it checked. */
  lemma AnsweredPruneSucceeds(run: seq<System>, steps: seq<Step>, k: nat, x: nat)
    requires IsRun(run, steps) && k < |run| && x < |run[0].procs| && run[0].procs[x].Prune?
    requires HealthyFor(run, steps, x) && forall j :: 0 <= j < |run| ==> SecretsAreUuids(run[j].store)
    ensures x < |run[k].procs| && run[k].procs[x].Prune?
    ensures run[k].procs[x].prune.PruneFailed? ==> run[k].procs[x].prune == PruneFailed([], NotEnsured)
  {
    StaysFine(run, steps, k, x);
    RunReacts(run, steps, k, x);
    PruneStays(run[0].procs[x], RepliesTo(steps[..k], x));
  }

  lemma {:induction false} PruneStays(p: Process, replies: seq<Reply>)
    requires p.Prune?
    ensures React(p, replies).Prune?
  {
    if replies != [] { PruneStays(p, replies[..|replies| - 1]); }
  }
}
