/**
 * createACLBootstrapToken: a goroutine that runs one bootstrap command per tick and reports through a one-slot
 * channel, and the select that waits for it or for 30 seconds, under every interleaving.
 */
module Bootstrap {
  import opened GoText

  const TICK := 250
  const TIMEOUT := 30000

  const NO_CLUSTER_LEADER := "No cluster leader"

  /** How a bootstrap command ends: its output, an exit status with stderr, or any other error. */
  datatype Outcome = Output(data: string) | ExitError(stderr: string) | OtherError

  datatype Message = Data(data: string) | Error(stderr: string)

  /** Retried: an exit that complains about the missing leader, and whatever is no exit status. */
  predicate IsFinal(o: Outcome) { o.Output? || (o.ExitError? && !Contains(o.stderr, NO_CLUSTER_LEADER)) }

  function Report(o: Outcome): Message
    requires IsFinal(o)
  {
    match o case Output(data) => Data(data) case ExitError(stderr) => Error(stderr)
  }

  datatype Worker = Waiting | Running | Sending(message: Message) | Exited

  datatype Main = Selecting | Returned(message: Message) | TimedOut

  datatype State = State(
    now: nat, pendingTick: bool, stopped: bool,
    worker: Worker, channel: Option<Message>, main: Main,
    log: seq<Outcome>)

  datatype Step = Clock | DropTick | TakeTick | Finish(outcome: Outcome) | Send | Receive | TimeOut

  function Init(): State {
    State(0, false, false, Waiting, None, Selecting, [])
  }

  ghost predicate Next(s: State, step: Step, s': State) {
    match step
    case Clock =>
      s' == s.(now := s.now + 1, pendingTick := s.pendingTick || (!s.stopped && (s.now + 1) % TICK == 0))
    case DropTick => s.stopped && s' == s.(pendingTick := false)
    case TakeTick => s.worker == Waiting && s.pendingTick && s' == s.(worker := Running, pendingTick := false)
    case Finish(o) =>
      s.worker == Running && s' == s.(log := s.log + [o], worker := if IsFinal(o) then Sending(Report(o)) else Waiting)
    case Send => s.worker.Sending? && s.channel.None? && s' == s.(worker := Exited, channel := Some(s.worker.message))
    case Receive =>
      s.main == Selecting && s.channel.Some?
      && s' == s.(main := Returned(s.channel.value), channel := None, stopped := true)
    case TimeOut => s.main == Selecting && s.now >= TIMEOUT && s' == s.(main := TimedOut, stopped := true)
  }

  ghost predicate IsRun(run: seq<State>, steps: seq<Step>) {
    && |run| == |steps| + 1 && run[0] == Init()
    && forall k {:trigger steps[k]} :: 0 <= k < |steps| ==> Next(run[k], steps[k], run[k + 1])
  }

  /** The commands so far ended with one that is reported. */
  ghost predicate Decided(log: seq<Outcome>) { log != [] && IsFinal(log[|log| - 1]) }

  /** Commands started, the one in progress included. */
  function Commands(s: State): nat { |s.log| + if s.worker == Running then 1 else 0 }

  ghost predicate Inv(s: State) {
    && (forall i :: 0 <= i < |s.log| - 1 ==> !IsFinal(s.log[i]))
    && (Decided(s.log) <==> s.worker.Sending? || s.worker.Exited?)
    && (s.worker.Sending? ==> s.worker.message == Report(s.log[|s.log| - 1]) && s.channel.None? && !s.main.Returned?)
    && (s.channel.Some? ==> s.worker.Exited? && s.channel.value == Report(s.log[|s.log| - 1]) && !s.main.Returned?)
    && (s.main.Returned? ==> s.worker.Exited? && s.main.message == Report(s.log[|s.log| - 1]))
    && (s.worker.Exited? ==> s.channel.Some? || s.main.Returned?)
    && (s.main != Selecting ==> s.stopped) && (s.main == TimedOut ==> s.now >= TIMEOUT)
    && Commands(s) + (if s.pendingTick then 1 else 0) <= s.now / TICK
  }

  lemma StepKeeps(s: State, step: Step, s': State)
    requires Inv(s) && Next(s, step, s')
    ensures Inv(s') && s.log <= s'.log
    ensures Decided(s.log) ==> s'.log == s.log && Commands(s') == Commands(s)
    ensures s.main != Selecting ==> s'.main == s.main
  {
    if step.Clock? {
      ClockTicks(s.now);
    }
  }

  lemma ClockTicks(now: nat)
    ensures (now + 1) / TICK == now / TICK + if (now + 1) % TICK == 0 then 1 else 0
  {
  }

  lemma {:induction false} RunInvariant(run: seq<State>, steps: seq<Step>, k: nat)
    requires IsRun(run, steps) && k < |run|
    ensures Inv(run[k]) && (k > 0 ==> run[k - 1].log <= run[k].log)
  {
    if k > 0 {
      RunInvariant(run, steps, k - 1);
      StepKeeps(run[k - 1], steps[k - 1], run[k]);
    }
  }

  /** The goroutine's send never blocks, and nothing is sent twice. */
  lemma SendNeverBlocks(run: seq<State>, steps: seq<Step>, k: nat)
    requires IsRun(run, steps) && k < |run| && run[k].worker.Sending?
    ensures run[k].channel.None?
    ensures forall j :: 0 <= j < |steps| && steps[j] == Send ==> j >= k
  {
    RunInvariant(run, steps, k);
    forall j | 0 <= j < |steps| && steps[j] == Send ensures j >= k {
      if j < k {
        ExitedForEver(run, steps, j + 1, k);
      }
    }
  }

  lemma {:induction false} ExitedForEver(run: seq<State>, steps: seq<Step>, i: nat, j: nat)
    requires IsRun(run, steps) && i <= j < |run| && run[i].worker.Exited?
    ensures run[j].worker.Exited?
  {
    if i < j {
      ExitedForEver(run, steps, i, j - 1);
      assert Next(run[j - 1], steps[j - 1], run[j]);
    }
  }

  /** No bootstrap command runs after a success or a fatal error. */
  lemma {:induction false} NoCommandAfterVerdict(run: seq<State>, steps: seq<Step>, i: nat, j: nat)
    requires IsRun(run, steps) && i <= j < |run| && Decided(run[i].log)
    ensures run[j].log == run[i].log && Commands(run[j]) == Commands(run[i])
  {
    if i < j {
      NoCommandAfterVerdict(run, steps, i, j - 1);
      RunInvariant(run, steps, j - 1);
      StepKeeps(run[j - 1], steps[j - 1], run[j]);
    }
  }

  /**
   * A return other than the timeout carries exactly the outcome of the last command, a success or an exit that does
   * not complain about the missing leader; every command before it did complain, or gave no exit status.
   */
  lemma ReturnCarriesTheVerdict(run: seq<State>, steps: seq<Step>, k: nat)
    requires IsRun(run, steps) && k < |run| && run[k].main.Returned?
    ensures run[k].log != []
    ensures match run[k].log[|run[k].log| - 1]
            case Output(data) => run[k].main.message == Data(data)
            case ExitError(stderr) => !Contains(stderr, "No cluster leader") && run[k].main.message == Error(stderr)
            case OtherError => false
    ensures forall i :: 0 <= i < |run[k].log| - 1 ==> Retried(run[k].log[i])
  {
    RunInvariant(run, steps, k);
  }

  predicate Retried(o: Outcome) { o.OtherError? || (o.ExitError? && Contains(o.stderr, "No cluster leader")) }

  /** At most one command per tick: no more than 120 by the time of the timeout. */
  lemma CommandsAreBounded(run: seq<State>, steps: seq<Step>, k: nat)
    requires IsRun(run, steps) && k < |run|
    ensures Commands(run[k]) <= run[k].now / 250
    ensures run[k].now <= 30000 ==> Commands(run[k]) <= 120
  {
    RunInvariant(run, steps, k);
  }

  /** It is not given up before its 30 seconds are over, and can be from then on. */
  lemma TimeoutIsNotEarly(run: seq<State>, steps: seq<Step>, k: nat)
    requires IsRun(run, steps) && k < |run|
    ensures run[k].main == TimedOut ==> run[k].now >= 30000
    ensures run[k].main == Selecting && run[k].now >= 30000 ==>
      Next(run[k], TimeOut, run[k].(main := TimedOut, stopped := true))
  {
    RunInvariant(run, steps, k);
  }

  // ---- After the timeout

  /** Any continuation from any state. */
  ghost predicate IsPath(run: seq<State>, steps: seq<Step>) {
    && |run| == |steps| + 1
    && forall k {:trigger steps[k]} :: 0 <= k < |steps| ==> Next(run[k], steps[k], run[k + 1])
  }

  /** A command is in progress, or a tick is left for the goroutine to take. */
  predicate CommandAhead(s: State) { s.worker == Running || (s.worker == Waiting && s.pendingTick) }

  predicate EndsInSuccess(log: seq<Outcome>) { log != [] && log[|log| - 1].Output? }

  ghost predicate MaySucceed(s: State) {
    exists run: seq<State>, steps: seq<Step> :: IsPath(run, steps) && run[0] == s && EndsInSuccess(run[|run| - 1].log)
  }

  /**
   * Once the setup has given up it stays so: nobody ever receives the goroutine's message, and at most one more
   * command is started, from a tick that was already there.
   */
  lemma {:induction false} TimedOutForEver(run: seq<State>, steps: seq<Step>, k: nat)
    requires IsPath(run, steps) && k < |run| && run[0].main == TimedOut && run[0].stopped
    ensures run[k].main == TimedOut && run[k].stopped && (k < |steps| ==> steps[k] != Receive)
    ensures Commands(run[k]) + (if run[k].pendingTick then 1 else 0)
         <= Commands(run[0]) + (if run[0].pendingTick then 1 else 0)
  {
    if k > 0 {
      TimedOutForEver(run, steps, k - 1);
      assert Next(run[k - 1], steps[k - 1], run[k]);
    }
    assert k < |steps| ==> Next(run[k], steps[k], run[k + 1]);
  }

  lemma {:induction false} NoCommandReturns(run: seq<State>, steps: seq<Step>, k: nat)
    requires IsPath(run, steps) && k < |run| && run[0].stopped && !CommandAhead(run[0])
    ensures run[k].stopped && !CommandAhead(run[k]) && run[k].log == run[0].log
  {
    if k > 0 {
      NoCommandReturns(run, steps, k - 1);
      assert Next(run[k - 1], steps[k - 1], run[k]);
    }
  }

  lemma CommandCanSucceed(s: State, data: string)
    requires CommandAhead(s)
    ensures MaySucceed(s)
  {
    var running := s.(worker := Running, pendingTick := if s.worker == Running then s.pendingTick else false);
    var done := running.(log := s.log + [Output(data)], worker := Sending(Data(data)));
    var run := (if s.worker == Running then [] else [s]) + [running, done];
    var steps := (if s.worker == Running then [] else [TakeTick]) + [Finish(Output(data))];
    assert IsPath(run, steps) && run[0] == s && run[|run| - 1] == done;
  }

  /**
   * Exactly when a bootstrap succeeds whose secret is lost: after the timeout a success is there or can still come
   * if and only if the last command succeeded, one is in progress, or a tick is left to a waiting goroutine.
   */
  lemma SuccessIsLost(s: State)
    requires Inv(s) && s.main == TimedOut
    ensures MaySucceed(s) <==> EndsInSuccess(s.log) || CommandAhead(s)
  {
    if CommandAhead(s) {
      CommandCanSucceed(s, "");
    } else if EndsInSuccess(s.log) {
      assert IsPath([s], []) && [s][|[s]| - 1] == s;
    } else if MaySucceed(s) {
      var run: seq<State>, steps: seq<Step> :| IsPath(run, steps) && run[0] == s && EndsInSuccess(run[|run| - 1].log);
      NoCommandReturns(run, steps, |run| - 1);
      assert false;
    }
  }

  /** The state after `k` milliseconds in which only the clock moved. */
  function Idle(k: nat): State { Init().(now := k, pendingTick := k >= TICK) }

  lemma IdleStep(k: nat)
    ensures Next(Idle(k), Clock, Idle(k + 1))
  {
  }

  /**
   * The timeout does not call the goroutine off: a command taken at the last moment can still succeed after the
   * setup has given up, and its answer is then read by nobody.
   */
  lemma TimeoutCanLoseSuccess(data: string) returns (run: seq<State>, steps: seq<Step>)
    ensures IsRun(run, steps)
    ensures run[|run| - 1].main == TimedOut && run[|run| - 1].log == [Output(data)]
  {
    var idle, taken := Idle(TIMEOUT), Idle(TIMEOUT).(worker := Running, pendingTick := false);
    var late := taken.(main := TimedOut, stopped := true);
    var done := late.(log := [] + [Output(data)], worker := Sending(Data(data)));
    run := seq(TIMEOUT + 1, k requires k >= 0 => Idle(k)) + [taken, late, done];
    steps := seq(TIMEOUT, _ => Clock) + [TakeTick, TimeOut, Finish(Output(data))];
    forall k | 0 <= k < |steps| ensures Next(run[k], steps[k], run[k + 1]) {
      if k < TIMEOUT {
        IdleStep(k);
      }
    }
  }
}
