/** The policy links of one token under concurrent ensures that all use the same policy. */
module TokenPolicies {
  import opened ServiceTokens
  import opened TokenRuns

  /** An ensure at work on `a`: it knows its node name and has not failed. */
  ghost predicate WorksOn(p: Process, a: Accessor) {
    && p.Ensure?
    && match p.ensure
       case Reading(node) => ServiceTokenAccessorID(p.service, node) == a
       case Creating(node) => ServiceTokenAccessorID(p.service, node) == a
       case Rereading(node, _) => ServiceTokenAccessorID(p.service, node) == a
       case Linking(node, _) => ServiceTokenAccessorID(p.service, node) == a
       case Ensured(node, _) => ServiceTokenAccessorID(p.service, node) == a
       case _ => false
  }

  ghost predicate OnePolicy(procs: seq<Process>, a: Accessor, policy: string) {
    forall i :: 0 <= i < |procs| && WorksOn(procs[i], a) ==> procs[i].policy == policy
  }

  /** At no point of the run do ensures with different policies work on `a`; other tokens may have other policies. */
  ghost predicate OnePolicyThroughout(run: seq<System>, a: Accessor, policy: string) {
    forall k :: 0 <= k < |run| ==> OnePolicy(run[k].procs, a, policy)
  }

  /** The links are unchanged, or the policy was missing and is now linked last. */
  ghost predicate LinksMove(store: Store, store': Store, a: Accessor, policy: string) {
    a in store ==>
      && a in store'
      && (|| store'[a].policies == store[a].policies
          || (policy !in store[a].policies && store'[a].policies == store[a].policies + [policy]))
  }

  ghost predicate IsStale(stale: seq<string>, copy: seq<string>, stored: seq<string>, policy: string) {
    && policy !in stale && copy == stale + [policy]
    && (stored == stale || stored == stale + [policy])
  }

  /** An ensure about to write back a stale copy of `a` would add nothing but the policy. */
  ghost predicate CopyIsHarmless(store: Store, p: Process, a: Accessor, policy: string) {
    p.Ensure? ==> match p.ensure
      case Linking(node, token) =>
        ServiceTokenAccessorID(p.service, node) == a ==>
          a in store && exists stale: seq<string> :: IsStale(stale, token.policies, store[a].policies, policy)
      case Ensured(node, _) =>
        ServiceTokenAccessorID(p.service, node) == a ==> a in store && policy in store[a].policies
      case _ => true
  }

  ghost predicate PolicyInv(s: System, a: Accessor, policy: string) {
    && OnePolicy(s.procs, a, policy)
    && (forall i :: 0 <= i < |s.procs| ==> CopyIsHarmless(s.store, s.procs[i], a, policy))
  }

  lemma OtherCopies(store: Store, store': Store, p: Process, a: Accessor, policy: string)
    requires LinksMove(store, store', a, policy) && CopyIsHarmless(store, p, a, policy)
    ensures CopyIsHarmless(store', p, a, policy)
  {
    if p.Ensure? && p.ensure.Linking? && ServiceTokenAccessorID(p.service, p.ensure.node) == a {
      var stale :| IsStale(stale, p.ensure.token.policies, store[a].policies, policy);
      assert policy in stale + [policy];
      assert IsStale(stale, p.ensure.token.policies, store'[a].policies, policy);
    }
  }

  lemma ActorMoves(store: Store, p: Process, r: Reply, store': Store, a: Accessor, policy: string)
    requires a.Derived? && SchemeDescriptions(store) && Knows(store, p) && CopyIsHarmless(store, p, a, policy)
    requires Asks(p).Some? && Serves(store, Asks(p).value, r, store')
    requires WorksOn(p, a) ==> p.policy == policy
    ensures LinksMove(store, store', a, policy)
    ensures CopyIsHarmless(store', After(p, r), a, policy)
  {
    if p.Ensure? {
      match p.ensure {
        case Linking(node, token) => ActorLinks(store, p, r, store', a, policy);
        case Reading(node) => ActorAdopts(store, p, r, store', a, policy);
        case Rereading(node, _) => ActorAdopts(store, p, r, store', a, policy);
        case _ =>
      }
    }
  }

  lemma ActorLinks(store: Store, p: Process, r: Reply, store': Store, a: Accessor, policy: string)
    requires p.Ensure? && p.ensure.Linking?
    requires a.Derived? && Knows(store, p) && CopyIsHarmless(store, p, a, policy)
    requires Serves(store, Asks(p).value, r, store')
    ensures LinksMove(store, store', a, policy)
    ensures CopyIsHarmless(store', After(p, r), a, policy)
  {
  }

  lemma ActorAdopts(store: Store, p: Process, r: Reply, store': Store, a: Accessor, policy: string)
    requires p.Ensure? && (p.ensure.Reading? || p.ensure.Rereading?)
    requires ServiceTokenAccessorID(p.service, p.ensure.node) == a ==> p.policy == policy
    requires Serves(store, Asks(p).value, r, store')
    ensures LinksMove(store, store', a, policy)
    ensures CopyIsHarmless(store', After(p, r), a, policy)
  {
    if r.TokenIs? && ServiceTokenAccessorID(p.service, p.ensure.node) == a && policy !in r.token.policies {
      var stale := r.token.policies;
      assert IsStale(stale, stale + [policy], store[a].policies, policy);
    }
  }

  lemma PolicyStep(s: System, step: Step, s': System, a: Accessor, policy: string)
    requires a.Derived? && Inv(s) && PolicyInv(s, a, policy) && Next(s, step, s') && OnePolicy(s'.procs, a, policy)
    ensures PolicyInv(s', a, policy) && LinksMove(s.store, s'.store, a, policy)
  {
    if step.Call? {
      assert Knows(s.store, s.procs[step.i]);
      assert CopyIsHarmless(s.store, s.procs[step.i], a, policy);
      ActorMoves(s.store, s.procs[step.i], step.reply, s'.store, a, policy);
    }
    forall j | 0 <= j < |s'.procs| ensures CopyIsHarmless(s'.store, s'.procs[j], a, policy) {
      if step.Foreign? || step.i != j {
        OtherCopies(s.store, s'.store, s.procs[j], a, policy);
      }
    }
  }

  lemma {:induction false} RunPolicyInv(run: seq<System>, steps: seq<Step>, k: nat, a: Accessor, policy: string)
    requires IsRun(run, steps) && k < |run| && a.Derived? && OnePolicyThroughout(run, a, policy)
    ensures PolicyInv(run[k], a, policy)
  {
    if k > 0 {
      RunPolicyInv(run, steps, k - 1, a, policy);
      RunInvariant(run, steps, k - 1);
      PolicyStep(run[k - 1], steps[k - 1], run[k], a, policy);
    } else {
      assert forall i :: 0 <= i < |run[0].procs| ==> AtStart(run[0].procs[i]);
    }
  }

  ghost predicate LinksGrow(store: Store, store': Store, a: Accessor) {
    a in store ==> a in store' && store[a].policies <= store'[a].policies
  }

  lemma StepGrows(run: seq<System>, steps: seq<Step>, k: nat, a: Accessor, policy: string)
    requires IsRun(run, steps) && k < |steps| && a.Derived? && OnePolicyThroughout(run, a, policy)
    ensures LinksGrow(run[k].store, run[k + 1].store, a)
  {
    RunPolicyInv(run, steps, k, a, policy);
    StepAt(run, steps, k);
    PolicyStep(run[k], steps[k], run[k + 1], a, policy);
  }

  /** No policy linked earlier is ever lost or moved: the old links stay a prefix of the new ones. */
  lemma {:induction false} LinksOnlyGrow(run: seq<System>, steps: seq<Step>, i: nat, j: nat, a: Accessor,
                                         policy: string)
    requires IsRun(run, steps) && i <= j < |run| && a.Derived? && OnePolicyThroughout(run, a, policy)
    ensures LinksGrow(run[i].store, run[j].store, a)
  {
    if i < j {
      LinksOnlyGrow(run, steps, i, j - 1, a, policy);
      StepGrows(run, steps, j - 1, a, policy);
    }
  }

  /** After the first success the policy stays linked for ever. */
  lemma PolicyStaysLinked(run: seq<System>, steps: seq<Step>, i: nat, j: nat, x: nat, a: Accessor, secret: string,
                          policy: string)
    requires IsRun(run, steps) && i <= j < |run| && a.Derived? && OnePolicyThroughout(run, a, policy)
    requires x < |run[i].procs| && Succeeded(run[i].procs[x], a, secret)
    ensures a in run[j].store && policy in run[j].store[a].policies
  {
    RunPolicyInv(run, steps, i, a, policy);
    assert CopyIsHarmless(run[i].store, run[i].procs[x], a, policy);
    LinksOnlyGrow(run, steps, i, j, a, policy);
  }
}
