/** What one prune reports and leaves when it has the store to itself, and what it spares whatever it is told. */
module PruneReport {
  import opened GoText
  import opened LegacyTokens
  import opened ServiceTokens
  import TokenRuns

  // ---- What a prune sets out to delete

  /** An entry of another token whose description names a legacy token of this host. */
  ghost predicate ToDelete(e: ListEntry, current: Accessor, legacyNames: seq<string>, hostnames: seq<string>) {
    e.accessor != current && NamesLegacyToken(Subject(Fields(e.description)), legacyNames, hostnames)
  }

  /** Which entries are to be deleted. */
  ghost function Marks(entries: seq<ListEntry>, current: Accessor, legacyNames: seq<string>, hostnames: seq<string>)
    : (marks: seq<bool>)
    ensures |marks| == |entries|
    ensures forall i :: 0 <= i < |entries| ==> marks[i] == ToDelete(entries[i], current, legacyNames, hostnames)
  {
    if entries == [] then [] else
      [ToDelete(entries[0], current, legacyNames, hostnames)] + Marks(entries[1..], current, legacyNames, hostnames)
  }

  /** The positions of all marks, in order. */
  ghost predicate Picks(picks: seq<nat>, marks: seq<bool>) {
    && (forall j, k :: 0 <= j < k < |picks| ==> picks[j] < picks[k])
    && (forall i :: i in picks <==> 0 <= i < |marks| && marks[i])
  }

  ghost predicate AccessorsAt(targets: seq<Accessor>, entries: seq<ListEntry>, picks: seq<nat>) {
    && |targets| == |picks|
    && forall j :: 0 <= j < |picks| ==> picks[j] < |entries| && targets[j] == entries[picks[j]].accessor
  }

  ghost predicate SelectsMarked(targets: seq<Accessor>, entries: seq<ListEntry>, marks: seq<bool>) {
    exists picks: seq<nat> :: Picks(picks, marks) && AccessorsAt(targets, entries, picks)
  }

  /** These are the accessors of exactly the entries to delete, in list order. */
  ghost predicate Selects(targets: seq<Accessor>, entries: seq<ListEntry>, current: Accessor,
                          legacyNames: seq<string>, hostnames: seq<string>)
  {
    SelectsMarked(targets, entries, Marks(entries, current, legacyNames, hostnames))
  }

  lemma SkipsTheOthers(e: ListEntry, current: Accessor, legacyNames: seq<string>, hostnames: seq<string>)
    ensures Skips(e, current, legacyNames, hostnames) <==> !ToDelete(e, current, legacyNames, hostnames)
  {
    RecogniserMeetsDefinition(e.description, legacyNames, hostnames);
  }

  function Shifted(picks: seq<nat>): (r: seq<nat>)
    ensures |r| == |picks| && forall j :: 0 <= j < |picks| ==> r[j] == picks[j] + 1
  {
    if picks == [] then [] else [picks[0] + 1] + Shifted(picks[1..])
  }

  lemma ShiftedHas(picks: seq<nat>, i: nat)
    ensures i in Shifted(picks) <==> i > 0 && i - 1 in picks
  {
    if i > 0 && i - 1 in picks {
      var j :| 0 <= j < |picks| && picks[j] == i - 1;
      assert Shifted(picks)[j] == i;
    }
  }

  lemma PicksOfRest(picks: seq<nat>, marks: seq<bool>)
    requires marks != [] && Picks(picks, marks[1..])
    ensures Picks((if marks[0] then [0] else []) + Shifted(picks), marks)
  {
    var head: seq<nat> := if marks[0] then [0] else [];
    forall i: nat ensures i in head + Shifted(picks) <==> i < |marks| && marks[i] {
      ShiftedHas(picks, i);
      if i > 0 {
        assert i - 1 in picks <==> i - 1 < |marks[1..]| && marks[1..][i - 1];
      }
    }
  }

  lemma AccessorsOfRest(targets: seq<Accessor>, entries: seq<ListEntry>, picks: seq<nat>, first: bool)
    requires entries != [] && AccessorsAt(targets, entries[1..], picks)
    ensures AccessorsAt((if first then [entries[0].accessor] else []) + targets, entries,
                        (if first then [0] else []) + Shifted(picks))
  {
    forall j | 0 <= j < |picks| ensures entries[picks[j] + 1] == entries[1..][picks[j]] {
    }
  }

  lemma SelectsFromRest(targets: seq<Accessor>, entries: seq<ListEntry>, marks: seq<bool>)
    requires entries != [] && |marks| == |entries| && SelectsMarked(targets, entries[1..], marks[1..])
    ensures SelectsMarked((if marks[0] then [entries[0].accessor] else []) + targets, entries, marks)
  {
    var picks: seq<nat> :| Picks(picks, marks[1..]) && AccessorsAt(targets, entries[1..], picks);
    PicksOfRest(picks, marks);
    AccessorsOfRest(targets, entries, picks, marks[0]);
  }

  /** The loop picks exactly the entries to delete. */
  lemma {:induction false} MatchingSelects(entries: seq<ListEntry>, current: Accessor, legacyNames: seq<string>,
                                           hostnames: seq<string>)
    ensures Selects(Matching(entries, current, legacyNames, hostnames), entries, current, legacyNames, hostnames)
  {
    var marks := Marks(entries, current, legacyNames, hostnames);
    if entries == [] {
      assert Picks([], marks) && AccessorsAt([], entries, []);
    } else {
      MatchingSelects(entries[1..], current, legacyNames, hostnames);
      SkipsTheOthers(entries[0], current, legacyNames, hostnames);
      assert marks[1..] == Marks(entries[1..], current, legacyNames, hostnames);
      SelectsFromRest(Matching(entries[1..], current, legacyNames, hostnames), entries, marks);
    }
  }

  // ---- Alone with the store

  /** A prune `p` run alone to its end: its states and the store around each reply. */
  ghost predicate SoloRun(p: Process, stores: seq<Store>, states: seq<PruneState>, replies: seq<Reply>)
    requires p.Prune?
  {
    && |stores| == |states| == |replies| + 1
    && Asks(p.(prune := states[|states| - 1])).None?
    && forall k {:trigger replies[k]} :: 0 <= k < |replies| ==>
         SoloStep(p, stores[k], states[k], replies[k], stores[k + 1], states[k + 1])
  }

  ghost predicate SoloStep(p: Process, store: Store, state: PruneState, r: Reply, store': Store, state': PruneState)
    requires p.Prune?
  {
    var q := Asks(p.(prune := state));
    q.Some? && Serves(store, q.value, r, store') && state' == PruneAfter(p.(prune := state), r)
  }

  lemma Rest(p: Process, stores: seq<Store>, states: seq<PruneState>, replies: seq<Reply>)
    requires p.Prune? && SoloRun(p, stores, states, replies) && replies != []
    ensures SoloRun(p, stores[1..], states[1..], replies[1..])
    ensures SoloStep(p, stores[0], states[0], replies[0], stores[1], states[1])
  {
    assert replies[0] == replies[0];
    forall k | 0 <= k < |replies[1..]|
      ensures SoloStep(p, stores[1..][k], states[1..][k], replies[1..][k], stores[1..][k + 1], states[1..][k + 1])
    {
      assert replies[1..][k] == replies[k + 1];
    }
  }

  function Minus(store: Store, accessors: seq<Accessor>): Store {
    store - (set a | a in accessors)
  }

  /** How a prune with these targets may end. */
  ghost predicate EndsWith(end: PruneState, left: Store, store: Store, targets: seq<Accessor>, earlier: seq<Accessor>) {
    match end
    case Pruned(deleted) => deleted == earlier + targets && left == Minus(store, targets)
    case PruneFailed(deleted, DeleteFailed(a, _)) =>
      exists n: nat :: FailsAt(n, deleted, a, left, store, targets, earlier)
    case _ => false
  }

  /** Target `n` is the first that could not be deleted. */
  ghost predicate FailsAt(n: nat, deleted: seq<Accessor>, a: Accessor, left: Store, store: Store,
                          targets: seq<Accessor>, earlier: seq<Accessor>)
  {
    && n < |targets| && targets[n] == a && deleted == earlier + targets[..n]
    && (left == Minus(store, targets[..n]) || left == Minus(store, targets[..n + 1]))
  }

  lemma MinusFirst(store: Store, targets: seq<Accessor>, n: nat)
    requires 0 < n <= |targets|
    ensures Minus(store - {targets[0]}, targets[1..][..n - 1]) == Minus(store, targets[..n])
  {
    assert targets[..n] == [targets[0]] + targets[1..][..n - 1];
  }

  lemma FailsAfterOne(n: nat, deleted: seq<Accessor>, a: Accessor, left: Store, store: Store,
                      targets: seq<Accessor>, earlier: seq<Accessor>)
    requires targets != []
    requires FailsAt(n, deleted, a, left, store - {targets[0]}, targets[1..], earlier + [targets[0]])
    ensures FailsAt(n + 1, deleted, a, left, store, targets, earlier)
  {
    MinusFirst(store, targets, n + 1);
    MinusFirst(store, targets, n + 2);
    assert targets[..n + 1] == [targets[0]] + targets[1..][..n];
  }

  lemma EndsAfterOne(end: PruneState, left: Store, store: Store, targets: seq<Accessor>, earlier: seq<Accessor>)
    requires targets != []
    requires EndsWith(end, left, store - {targets[0]}, targets[1..], earlier + [targets[0]])
    ensures EndsWith(end, left, store, targets, earlier)
  {
    match end {
      case Pruned(deleted) =>
        MinusFirst(store, targets, |targets|);
        assert targets[1..][..|targets| - 1] == targets[1..] && targets[..|targets|] == targets;
        assert earlier + [targets[0]] + targets[1..] == earlier + targets;
      case PruneFailed(deleted, DeleteFailed(a, _)) =>
        var n: nat :| FailsAt(n, deleted, a, left, store - {targets[0]}, targets[1..], earlier + [targets[0]]);
        FailsAfterOne(n, deleted, a, left, store, targets, earlier);
      case _ =>
    }
  }

  lemma {:induction false} DeletesInOrder(p: Process, node: string, targets: seq<Accessor>, earlier: seq<Accessor>,
                                          stores: seq<Store>, states: seq<PruneState>, replies: seq<Reply>)
    requires p.Prune? && SoloRun(p, stores, states, replies) && states[0] == Continue(node, targets, earlier)
    ensures EndsWith(states[|states| - 1], stores[|stores| - 1], stores[0], targets, earlier)
    decreases |replies|
  {
    if replies == [] {
      assert Minus(stores[0], []) == stores[0] && earlier + [] == earlier;
    } else {
      Rest(p, stores, states, replies);
      if replies[0].Deleted? {
        DeletesInOrder(p, node, targets[1..], earlier + [targets[0]], stores[1..], states[1..], replies[1..]);
        EndsAfterOne(states[|states| - 1], stores[|stores| - 1], stores[0], targets, earlier);
      } else {
        EndsAtFailure(p, stores, states, replies);
        assert targets[..0] == [] && earlier + [] == earlier && targets[..1] == [targets[0]];
        var d := states[|states| - 1];
        assert Minus(stores[0], []) == stores[0] && Minus(stores[0], [targets[0]]) == stores[0] - {targets[0]};
        assert FailsAt(0, d.deleted, targets[0], stores[|stores| - 1], stores[0], targets, earlier);
      }
    }
  }

  lemma EndsAtFailure(p: Process, stores: seq<Store>, states: seq<PruneState>, replies: seq<Reply>)
    requires p.Prune? && SoloRun(p, stores, states, replies) && replies != [] && states[1].PruneFailed?
    ensures |states| == 2
  {
    Rest(p, stores, states, replies);
    if replies[1..] != [] {
      Rest(p, stores[1..], states[1..], replies[1..]);
      assert false;
    }
  }

  /**
   * A finished prune reports, in list order, exactly the entries to delete when it succeeds, and those before the
   * first failing delete when it does not. The store is the old one without exactly the reported accessors; a failed
   * delete whose reply was lost may have removed its own accessor as well. A prune that fails before its deletes
   * changes nothing.
   */
  lemma FinishedPrune(p: Process, stores: seq<Store>, states: seq<PruneState>, replies: seq<Reply>)
    requires p.Prune? && SoloRun(p, stores, states, replies) && states[0].PruneStart?
    ensures var end, left := states[|states| - 1], stores[|stores| - 1];
            || (&& |replies| >= 3 && replies[0].NodeNameIs? && replies[1].TokenIs? && replies[2].Entries?
                && var current := ServiceTokenAccessorID(p.service, replies[0].name);
                exists targets :: Selects(targets, replies[2].entries, current, p.legacyNames, p.hostnames)
                                  && EndsWith(end, left, stores[0], targets, []))
            || (end.PruneFailed? && end.deleted == [] && !end.why.DeleteFailed? && left == stores[0])
  {
    Rest(p, stores, states, replies);
    if replies[0].Failed? {
      EndsAtFailure(p, stores, states, replies);
      return;
    }
    Rest(p, stores[1..], states[1..], replies[1..]);
    if replies[1].Failed? {
      EndsAtFailure(p, stores[1..], states[1..], replies[1..]);
      return;
    }
    Rest(p, stores[2..], states[2..], replies[2..]);
    if replies[2].Failed? {
      EndsAtFailure(p, stores[2..], states[2..], replies[2..]);
      return;
    }
    var current := ServiceTokenAccessorID(p.service, replies[0].name);
    DeletesAll(p, replies[0].name, replies[2].entries, current, stores[3..], states[3..], replies[3..]);
  }

  lemma DeletesAll(p: Process, node: string, entries: seq<ListEntry>, current: Accessor,
                   stores: seq<Store>, states: seq<PruneState>, replies: seq<Reply>)
    requires p.Prune? && SoloRun(p, stores, states, replies)
    requires states[0] == Continue(node, Matching(entries, current, p.legacyNames, p.hostnames), [])
    ensures exists targets :: Selects(targets, entries, current, p.legacyNames, p.hostnames)
                              && EndsWith(states[|states| - 1], stores[|stores| - 1], stores[0], targets, [])
  {
    var targets := Matching(entries, current, p.legacyNames, p.hostnames);
    DeletesInOrder(p, node, targets, [], stores, states, replies);
    MatchingSelects(entries, current, p.legacyNames, p.hostnames);
  }

  // ---- Whatever it is answered

  ghost predicate SparesOwn(p: Process) {
    p.Prune? && p.prune.Deleting? ==> ServiceTokenAccessorID(p.service, p.prune.node) !in p.prune.pending
  }

  lemma {:induction false} MatchingSparesCurrent(entries: seq<ListEntry>, current: Accessor, legacyNames: seq<string>,
                                                 hostnames: seq<string>)
    ensures current !in Matching(entries, current, legacyNames, hostnames)
  {
    if entries != [] { MatchingSparesCurrent(entries[1..], current, legacyNames, hostnames); }
  }

  lemma {:induction false} ReactSpares(p: Process, replies: seq<Reply>)
    requires p.Prune? && p.prune == PruneStart
    ensures React(p, replies).Prune? && SparesOwn(React(p, replies))
  {
    if replies != [] {
      var before, r := React(p, replies[..|replies| - 1]), replies[|replies| - 1];
      ReactSpares(p, replies[..|replies| - 1]);
      if before.prune.Listing? && r.Entries? {
        MatchingSparesCurrent(r.entries, ServiceTokenAccessorID(before.service, before.prune.node),
                              before.legacyNames, before.hostnames);
      }
    }
  }

  /** No replies, not even with "carbonio" as a legacy name, make a prune delete the token it checked for. */
  lemma NeverDeletesOwn(p: Process, replies: seq<Reply>, a: Accessor)
    requires p.Prune? && p.prune == PruneStart && Asks(React(p, replies)) == Some(DeleteToken(a))
    ensures var q := React(p, replies);
      q.Prune? && q.prune.Deleting? && a != ServiceTokenAccessorID(q.service, q.prune.node)
  {
    ReactSpares(p, replies);
  }

  /** After a list reply and `n` replies to deletes. */
  ghost predicate Reports(state: PruneState, targets: seq<Accessor>, n: nat) {
    match state
    case Deleting(_, pending, deleted) => n < |targets| && deleted == targets[..n] && pending == targets[n..]
    case Pruned(deleted) => n == |targets| && deleted == targets
    case PruneFailed(deleted, DeleteFailed(a, _)) =>
      0 < n <= |targets| && deleted == targets[..n - 1] && a == targets[n - 1]
    case _ => false
  }

  /** What the prune sets out to delete, from the node name and the list it got. */
  function Targets(p: Process, replies: seq<Reply>): seq<Accessor>
    requires p.Prune? && |replies| >= 3 && replies[0].NodeNameIs? && replies[2].Entries?
  {
    Matching(replies[2].entries, ServiceTokenAccessorID(p.service, replies[0].name), p.legacyNames, p.hostnames)
  }

  /** The targets are exactly the accessors of the entries to delete. */
  ghost predicate TargetsAreRight(p: Process, replies: seq<Reply>)
    requires p.Prune?
  {
    |replies| >= 3 && replies[0].NodeNameIs? && replies[2].Entries? ==>
      Selects(Targets(p, replies), replies[2].entries, ServiceTokenAccessorID(p.service, replies[0].name),
              p.legacyNames, p.hostnames)
  }

  lemma TargetsSelected(p: Process, replies: seq<Reply>)
    requires p.Prune?
    ensures TargetsAreRight(p, replies)
  {
    if |replies| >= 3 && replies[0].NodeNameIs? && replies[2].Entries? {
      var current := ServiceTokenAccessorID(p.service, replies[0].name);
      MatchingSelects(replies[2].entries, current, p.legacyNames, p.hostnames);
    }
  }

  /** A reply before the deletes was a failure: the prune has stopped there, with nothing deleted. */
  ghost predicate StoppedEarly(replies: seq<Reply>, state: PruneState) {
    && 1 <= |replies| <= 3 && replies[|replies| - 1].Failed?
    && state.PruneFailed? && state.deleted == [] && !state.why.DeleteFailed?
  }

  /** Up to the list reply. */
  ghost predicate IsEarly(replies: seq<Reply>, state: PruneState) {
    match |replies|
    case 0 => state == PruneStart
    case 1 => replies[0].NodeNameIs? && state == CheckingCurrent(replies[0].name)
    case 2 => replies[0].NodeNameIs? && replies[1].TokenIs? && state == Listing(replies[0].name)
    case _ => false
  }

  /** From the list reply on: every delete but perhaps the last has gone well. */
  ghost predicate IsDeleting(p: Process, replies: seq<Reply>, state: PruneState)
    requires p.Prune?
  {
    && |replies| >= 3 && replies[0].NodeNameIs? && replies[1].TokenIs? && replies[2].Entries?
    && Reports(state, Targets(p, replies), |replies| - 3)
    && (state.PruneFailed? <==> replies[|replies| - 1].Failed?)
    && AllDeleted(replies)
  }

  ghost predicate AllDeleted(replies: seq<Reply>) {
    forall k :: 3 <= k < |replies| ==> replies[k].Deleted? || (k == |replies| - 1 && replies[k].Failed?)
  }

  lemma AllDeletedNext(front: seq<Reply>, r: Reply)
    requires AllDeleted(front) && |front| >= 3 && !front[|front| - 1].Failed? && (r.Deleted? || r.Failed?)
    ensures AllDeleted(front + [r])
  {
  }

  /** Where a prune that got these replies is. */
  ghost predicate IsAt(p: Process, replies: seq<Reply>, q: Process)
    requires p.Prune?
  {
    && q.Prune? && q == p.(prune := q.prune)
    && (StoppedEarly(replies, q.prune) || IsEarly(replies, q.prune) || IsDeleting(p, replies, q.prune))
  }

  lemma ReportsNext(state: PruneState, targets: seq<Accessor>, n: nat, p: Process, r: Reply)
    requires p.Prune? && p.prune == state && Reports(state, targets, n) && Asks(p).Some? && Answers(Asks(p).value, r)
    ensures Reports(PruneAfter(p, r), targets, n + 1)
    ensures (r.Deleted? || r.Failed?) && (PruneAfter(p, r).PruneFailed? <==> r.Failed?)
  {
    assert targets[n..][0] == targets[n] && targets[n..][1..] == targets[n + 1..];
    assert targets[..n] + [targets[n]] == targets[..n + 1];
  }

  lemma ReportsStart(node: string, targets: seq<Accessor>)
    ensures Reports(Continue(node, targets, []), targets, 0) && !Continue(node, targets, []).PruneFailed?
  {
    assert targets[..0] == [] && targets[0..] == targets;
  }

  lemma EarlyNext(p: Process, q: Process, front: seq<Reply>, r: Reply)
    requires p.Prune? && q.Prune? && q == p.(prune := q.prune) && IsEarly(front, q.prune) && Answers(Asks(q).value, r)
    ensures var replies, state := front + [r], PruneAfter(q, r);
      StoppedEarly(replies, state) || IsEarly(replies, state) || IsDeleting(p, replies, state)
  {
    var replies := front + [r];
    assert replies[|front|] == r && forall k :: 0 <= k < |front| ==> replies[k] == front[k];
    if |front| == 2 && r.Entries? {
      ReportsStart(front[0].name, Targets(p, replies));
    }
  }

  lemma DeletingNext(p: Process, q: Process, front: seq<Reply>, r: Reply)
    requires p.Prune? && q.Prune? && q == p.(prune := q.prune) && IsDeleting(p, front, q.prune)
    requires Asks(q).Some? && Answers(Asks(q).value, r)
    ensures IsDeleting(p, front + [r], PruneAfter(q, r))
  {
    ReportsNext(q.prune, Targets(p, front), |front| - 3, q, r);
    AllDeletedNext(front, r);
    assert Targets(p, front + [r]) == Targets(p, front);
  }

  lemma IsAtNext(p: Process, q: Process, front: seq<Reply>, r: Reply)
    requires p.Prune? && IsAt(p, front, q) && Asks(q).Some? && Answers(Asks(q).value, r)
    ensures IsAt(p, front + [r], After(q, r))
  {
    if IsEarly(front, q.prune) {
      EarlyNext(p, q, front, r);
    } else {
      DeletingNext(p, q, front, r);
    }
  }

  /**
   * The report of a prune at any moment of any run, whoever changes the store in between: it has deleted the matching
   * entries of the list it got, in order, up to the first delete that failed, or stopped before that with nothing
   * deleted.
   */
  lemma {:induction false} ReportInOrder(p: Process, replies: seq<Reply>)
    requires p.Prune? && p.prune == PruneStart && Answered(p, replies)
    ensures IsAt(p, replies, React(p, replies)) && TargetsAreRight(p, replies)
    decreases |replies|
  {
    TargetsSelected(p, replies);
    if replies != [] {
      var front, q, r := LastReply(p, replies);
      ReportInOrder(p, front);
      IsAtNext(p, q, front, r);
    }
  }

  /** So the report of a prune is in order under every interleaving with other commands. */
  lemma RunReportsInOrder(run: seq<TokenRuns.System>, steps: seq<TokenRuns.Step>, k: nat, x: nat)
    requires TokenRuns.IsRun(run, steps) && k < |run| && x < |run[0].procs| && run[0].procs[x].Prune?
    ensures x < |run[k].procs| && IsAt(run[0].procs[x], TokenRuns.RepliesTo(steps[..k], x), run[k].procs[x])
    ensures TargetsAreRight(run[0].procs[x], TokenRuns.RepliesTo(steps[..k], x))
  {
    TokenRuns.RunReacts(run, steps, k, x);
    assert AtStart(run[0].procs[x]);
    ReportInOrder(run[0].procs[x], TokenRuns.RepliesTo(steps[..k], x));
  }
}
