/** Any number of ensures and prunes on one Consul, interleaved call by call, and what every run keeps. */
module TokenRuns {
  import opened GoText
  import opened LegacyTokens
  import opened ServiceTokens

  datatype System = System(store: Store, procs: seq<Process>)

  /** One API call of one command, or a change by others to tokens outside the scheme. */
  datatype Step = Call(i: nat, reply: Reply) | Foreign

  ghost predicate SameDerived(a: Store, b: Store) {
    forall name :: (Derived(name) in a <==> Derived(name) in b)
      && (Derived(name) in a ==> a[Derived(name)] == b[Derived(name)])
  }

  ghost predicate Next(s: System, step: Step, s': System) {
    match step
    case Call(i, reply) =>
      && i < |s.procs| && Asks(s.procs[i]).Some?
      && Serves(s.store, Asks(s.procs[i]).value, reply, s'.store)
      && s'.procs == s.procs[i := After(s.procs[i], reply)]
    case Foreign =>
      && s'.procs == s.procs && SameDerived(s.store, s'.store)
  }

  /** The tokens of the scheme carry its description, as every implementation of the scheme sets it. */
  ghost predicate SchemeDescriptions(store: Store) {
    forall name :: Derived(name) in store ==>
      && store[Derived(name)].accessor == Derived(name)
      && store[Derived(name)].description == "carbonio/" + name
  }

  ghost predicate NoCarbonioName(p: Process) { p.Prune? ==> "carbonio" !in p.legacyNames }

  ghost predicate Init(s: System) {
    && SchemeDescriptions(s.store)
    && (forall i :: 0 <= i < |s.procs| ==> AtStart(s.procs[i]) && NoCarbonioName(s.procs[i]))
  }

  ghost predicate IsRun(run: seq<System>, steps: seq<Step>) {
    && |run| == |steps| + 1
    && Init(run[0])
    && (forall k {:trigger steps[k]} :: 0 <= k < |steps| ==> Next(run[k], steps[k], run[k + 1]))
  }

  /** What a command in flight knows about the store. */
  ghost predicate Knows(store: Store, p: Process) {
    match p
    case Ensure(service, policy, state) =>
      (match state
       case Linking(node, token) => Holds(store, ServiceTokenAccessorID(service, node), token.secret)
         && token.accessor == ServiceTokenAccessorID(service, node)
         && token.description == "carbonio/" + token.accessor.name
         && policy in token.policies
       case Ensured(node, secret) => Holds(store, ServiceTokenAccessorID(service, node), secret)
       case _ => true)
    case Prune(service, policy, legacyNames, hostnames, state) =>
      && "carbonio" !in legacyNames
      && (match state
          case Listing(node) => ServiceTokenAccessorID(service, node) in store
          case Deleting(node, pending, deleted) =>
            && ServiceTokenAccessorID(service, node) in store
            && NoneDerived(pending) && NoneDerived(deleted)
          case Pruned(deleted) => NoneDerived(deleted)
          case PruneFailed(deleted, _) => NoneDerived(deleted)
          case _ => true)
  }

  ghost predicate Holds(store: Store, a: Accessor, secret: string) { a in store && store[a].secret == secret }

  ghost predicate NoneDerived(accessors: seq<Accessor>) {
    forall i :: 0 <= i < |accessors| ==> accessors[i].Random?
  }

  ghost predicate Inv(s: System) {
    && SchemeDescriptions(s.store)
    && (forall i :: 0 <= i < |s.procs| ==> Knows(s.store, s.procs[i]))
  }

  /** Tokens of the scheme stay, with their secret. */
  ghost predicate Keeps(store: Store, store': Store) {
    forall name :: Derived(name) in store ==> Holds(store', Derived(name), store[Derived(name)].secret)
  }

  /** A list reply, however stale when used, never makes a prune set out to delete a token of the scheme. */
  lemma {:induction false} MatchingIsForeign(store: Store, policy: string, entries: seq<ListEntry>, current: Accessor,
                                             legacyNames: seq<string>, hostnames: seq<string>)
    requires SchemeDescriptions(store) && Listed(store, policy, entries) && "carbonio" !in legacyNames
    ensures NoneDerived(Matching(entries, current, legacyNames, hostnames))
  {
    if entries != [] {
      var e := entries[0];
      assert Listed(store, policy, entries[1..]) by {
        forall i | 0 <= i < |entries[1..]| ensures entries[1..][i] == entries[i + 1] {}
      }
      MatchingIsForeign(store, policy, entries[1..], current, legacyNames, hostnames);
      if e.accessor.Derived? {
        OwnDescriptionDecided(e.accessor.name, legacyNames, hostnames);
      }
    }
  }

  lemma KeepsKnows(store: Store, store': Store, p: Process)
    requires Keeps(store, store') && Knows(store, p)
    ensures Knows(store', p)
  {
  }

  lemma ServedKeeps(store: Store, p: Process, r: Reply, store': Store)
    requires SchemeDescriptions(store) && Knows(store, p) && Asks(p).Some? && Serves(store, Asks(p).value, r, store')
    ensures Keeps(store, store') && SchemeDescriptions(store')
  {
    if p.Ensure? && p.ensure.Creating? {
      var token := NewToken(p.service, p.ensure.node, p.policy);
      assert token.description == "carbonio/" + (p.service + "/" + p.ensure.node);
    }
  }

  lemma ReactionKnows(store: Store, p: Process, r: Reply, store': Store)
    requires SchemeDescriptions(store) && Knows(store, p) && Asks(p).Some? && Serves(store, Asks(p).value, r, store')
    ensures Knows(store', After(p, r))
  {
    ServedKeeps(store, p, r, store');
    if p.Ensure? {
      EnsureKnows(store, p, r, store');
    } else {
      PruneKnows(store, p, r, store');
    }
  }

  lemma EnsureKnows(store: Store, p: Process, r: Reply, store': Store)
    requires p.Ensure?
    requires SchemeDescriptions(store) && Knows(store, p) && Asks(p).Some? && Serves(store, Asks(p).value, r, store')
    ensures Knows(store', After(p, r))
  {
  }

  lemma PruneKnows(store: Store, p: Process, r: Reply, store': Store)
    requires p.Prune?
    requires SchemeDescriptions(store) && Knows(store, p) && Asks(p).Some? && Serves(store, Asks(p).value, r, store')
    ensures Knows(store', After(p, r))
  {
    if p.prune.Listing? && r.Entries? {
      var current := ServiceTokenAccessorID(p.service, p.prune.node);
      MatchingIsForeign(store, p.policy, r.entries, current, p.legacyNames, p.hostnames);
    }
  }

  lemma StepKeeps(s: System, step: Step, s': System)
    requires Inv(s) && Next(s, step, s')
    ensures Inv(s') && Keeps(s.store, s'.store)
  {
    if step.Call? {
      ServedKeeps(s.store, s.procs[step.i], step.reply, s'.store);
      ReactionKnows(s.store, s.procs[step.i], step.reply, s'.store);
    }
    forall j | 0 <= j < |s'.procs| ensures Knows(s'.store, s'.procs[j]) {
      if s'.procs[j] == s.procs[j] {
        KeepsKnows(s.store, s'.store, s.procs[j]);
      }
    }
  }

  lemma {:induction false} RunInvariant(run: seq<System>, steps: seq<Step>, k: nat)
    requires IsRun(run, steps) && k < |run|
    ensures Inv(run[k])
  {
    if k > 0 {
      RunInvariant(run, steps, k - 1);
      StepKeeps(run[k - 1], steps[k - 1], run[k]);
    }
  }

  lemma KeepsOn(a: Store, b: Store, c: Store)
    requires Keeps(a, b) && Keeps(b, c)
    ensures Keeps(a, c)
  {
  }

  lemma StepAt(run: seq<System>, steps: seq<Step>, k: nat)
    requires IsRun(run, steps) && k < |steps|
    ensures Inv(run[k]) && Next(run[k], steps[k], run[k + 1]) && Keeps(run[k].store, run[k + 1].store)
  {
    RunInvariant(run, steps, k);
    StepKeeps(run[k], steps[k], run[k + 1]);
  }

  lemma {:induction false} RunKeeps(run: seq<System>, steps: seq<Step>, i: nat, j: nat)
    requires IsRun(run, steps) && i <= j < |run|
    ensures Keeps(run[i].store, run[j].store)
  {
    if i < j {
      RunKeeps(run, steps, i, j - 1);
      StepAt(run, steps, j - 1);
      KeepsOn(run[i].store, run[j - 1].store, run[j].store);
    }
  }

  /** Step `k` brings the token of `name` into being. */
  ghost predicate CreatedAt(run: seq<System>, k: nat, name: string) {
    k + 1 < |run| && Derived(name) !in run[k].store && Derived(name) in run[k + 1].store
  }

  /** In every run at most one token is ever created under a deterministic AccessorID. */
  lemma AtMostOneCreate(run: seq<System>, steps: seq<Step>, i: nat, j: nat, name: string)
    requires IsRun(run, steps) && CreatedAt(run, i, name) && CreatedAt(run, j, name)
    ensures i == j
  {
    if i < j {
      RunKeeps(run, steps, i + 1, j);
    } else if j < i {
      RunKeeps(run, steps, j + 1, i);
    }
  }

  ghost predicate Succeeded(p: Process, a: Accessor, secret: string) {
    p.Ensure? && p.ensure.Ensured? && ServiceTokenAccessorID(p.service, p.ensure.node) == a && p.ensure.secret == secret
  }

  /** The secret a successful ensure returned is for ever the secret of the stored token. */
  lemma EnsuredSecretIsKept(run: seq<System>, steps: seq<Step>, i: nat, j: nat, x: nat, a: Accessor, secret: string)
    requires IsRun(run, steps) && i <= j < |run| && x < |run[i].procs| && Succeeded(run[i].procs[x], a, secret)
    ensures Holds(run[j].store, a, secret)
  {
    RunInvariant(run, steps, i);
    RunKeeps(run, steps, i, j);
    assert Knows(run[i].store, run[i].procs[x]);
  }

  /** All successful ensures on one AccessorID return one secret, whatever failed, raced or was pruned. */
  lemma EnsuresAgree(run: seq<System>, steps: seq<Step>, i: nat, x: nat, j: nat, y: nat,
                     a: Accessor, secret: string, secret': string)
    requires IsRun(run, steps) && i < |run| && j < |run|
    requires x < |run[i].procs| && Succeeded(run[i].procs[x], a, secret)
    requires y < |run[j].procs| && Succeeded(run[j].procs[y], a, secret')
    ensures secret == secret'
  {
    var last := |run| - 1;
    EnsuredSecretIsKept(run, steps, i, last, x, a, secret);
    EnsuredSecretIsKept(run, steps, j, last, y, a, secret');
  }

  /**
   * Every delete of a prune, even one from a stale list, leaves all tokens of the scheme alone and happens
   * while the deterministic token of the prune's own service and node exists.
   */
  lemma PruneDeletesOnlyForeign(run: seq<System>, steps: seq<Step>, k: nat, a: Accessor)
    requires IsRun(run, steps) && k < |steps| && steps[k].Call? && steps[k].i < |run[k].procs|
    requires var p := run[k].procs[steps[k].i]; p.Prune? && Asks(p) == Some(DeleteToken(a))
    ensures a.Random? && SameDerived(run[k].store, run[k + 1].store)
    ensures var p := run[k].procs[steps[k].i];
            var current := ServiceTokenAccessorID(p.service, p.prune.node);
            current in run[k].store && current in run[k + 1].store
  {
    RunInvariant(run, steps, k);
    var p := run[k].procs[steps[k].i];
    assert Knows(run[k].store, p);
    assert p.prune.pending[0].Random?;
    assert Next(run[k], steps[k], run[k + 1]);
  }

  /** What a prune reports as deleted never includes a token of the scheme. */
  lemma PruneReportsOnlyForeign(run: seq<System>, steps: seq<Step>, k: nat, x: nat, n: nat)
    requires IsRun(run, steps) && k < |run| && x < |run[k].procs| && run[k].procs[x].Prune?
    requires var state := run[k].procs[x].prune;
      (state.Deleting? || state.Pruned? || state.PruneFailed?) && n < |state.deleted|
    ensures run[k].procs[x].prune.deleted[n].Random?
  {
    RunInvariant(run, steps, k);
    assert Knows(run[k].store, run[k].procs[x]);
  }

  /** The replies that command `x` got in these steps. */
  function RepliesTo(steps: seq<Step>, x: nat): seq<Reply> {
    if steps == [] then [] else
      RepliesTo(steps[..|steps| - 1], x)
      + match steps[|steps| - 1]
        case Call(i, reply) => if i == x then [reply] else []
        case Foreign => []
  }

  lemma RepliesNext(steps: seq<Step>, k: nat, x: nat)
    requires k < |steps|
    ensures RepliesTo(steps[..k + 1], x)
         == RepliesTo(steps[..k], x) + if steps[k].Call? && steps[k].i == x then [steps[k].reply] else []
  {
    assert steps[..k + 1][..k] == steps[..k];
  }

  /** In a run each command has only ever reacted to answers to its own requests. */
  lemma {:induction false} RunReacts(run: seq<System>, steps: seq<Step>, k: nat, x: nat)
    requires IsRun(run, steps) && k < |run| && x < |run[0].procs|
    ensures x < |run[k].procs| && Answered(run[0].procs[x], RepliesTo(steps[..k], x))
    ensures run[k].procs[x] == React(run[0].procs[x], RepliesTo(steps[..k], x))
  {
    if k > 0 {
      RunReacts(run, steps, k - 1, x);
      RepliesNext(steps, k - 1, x);
      var step, replies := steps[k - 1], RepliesTo(steps[..k - 1], x);
      assert Next(run[k - 1], step, run[k]);
      if step.Call? && step.i == x {
        assert (replies + [step.reply])[..|replies|] == replies;
      } else {
        assert replies + [] == replies;
      }
    }
  }
}
