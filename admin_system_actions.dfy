/**
 * CiscoIOSXRAdminSystemActions: the install actions run on an admin-mode session,
 * the recovery policies around them (reconnect after an install commit, polling an
 * install request with a retry budget) and the formatting of their results.
 */
module AdminSystemActions {

  import opened Wrappers
  import opened Text
  import opened Cli
  import opened Patterns

  /** Polls after which `show_install_request` gives up on an operation that is not progressing. */
  const ShowRequestMaxRetry: nat := 10

  /** Seconds allowed for the session to come back after the device restarts. */
  const RestartTimeout: nat := 600

  /** Seconds slept between two polls of the install request. */
  const ShowRequestTimeout: nat := 30

  /** Seconds slept after an install commit that answered. */
  const InstallCommitTimeout: nat := 20

  /** Executor timeout, in seconds, of `install add source`. */
  const InstallAddSourceTimeout: nat := 3000

  // ---------------------------------------------------------------- thin wrappers

  /** `install_add_source`: its keyword arguments in call order, and the long timeout. */
  function InstallAddSourceCommand(path: string, fileName: string, fileExtension: Option<string>,
                                   admin: Option<string>, sync: Option<string>): (c: Command)
    ensures c.template == Cli.InstallAddSource && c.timeout == Some(InstallAddSourceTimeout)
    ensures |c.args| == 5
    ensures c.args[0] == ("path", Some(path)) && c.args[2] == ("file_name", Some(fileName))
    ensures c.args[1] == ("file_extension", fileExtension) && c.args[3] == ("admin", admin) && c.args[4] == ("sync", sync)
  {
    Command(Cli.InstallAddSource,
            [("path", Some(path)), ("file_extension", fileExtension), ("file_name", Some(fileName)),
             ("admin", admin), ("sync", sync)],
            Some(InstallAddSourceTimeout))
  }

  /** `install_activate`: the feature names go to the device as one space-separated argument. */
  function InstallActivateCommand(featureNames: seq<string>, admin: Option<string>): (c: Command)
    ensures c.template == Cli.InstallActivate && c.timeout.None? && |c.args| == 2
    ensures c.args[0] == ("feature_names", Some(Join(' ', featureNames)))
    ensures |featureNames| == 0 ==> c.args[0].1 == Some("")
    ensures c.args[1] == ("admin", admin)
  {
    Command(Cli.InstallActivate, [("feature_names", Some(Join(' ', featureNames))), ("admin", admin)], None)
  }

  /**
   * The device can recover the feature names from the activate argument: splitting
   * it at spaces gives back the list, when there is at least one name and no name
   * holds a space.
   */
  lemma ActivateArgumentSplits(featureNames: seq<string>, admin: Option<string>)
    requires |featureNames| > 0
    requires forall i | 0 <= i < |featureNames| :: ' ' !in featureNames[i]
    ensures Split(' ', InstallActivateCommand(featureNames, admin).args[0].1.value) == featureNames
  {
    SplitJoin(' ', featureNames);
  }

  // ---------------------------------------------------------------- install_commit

  function InstallCommitCommand(admin: Option<string>): (c: Command)
    ensures c.template == Cli.InstallCommit && c.args == [("admin", admin)] && c.timeout.None?
  {
    Command(Cli.InstallCommit, [("admin", admin)], None)
  }

  /** `not timeout` in Python: a missing or zero timeout means the restart timeout. */
  function EffectiveTimeout(timeout: Option<int>): (t: int)
    ensures timeout.None? || timeout.value == 0 ==> t == RestartTimeout
    ensures timeout.Some? && timeout.value != 0 ==> t == timeout.value
  {
    if timeout.None? || timeout.value == 0 then RestartTimeout else timeout.value
  }

  /**
   * `install_commit`: run the commit; when it answers, wait for the device and return
   * its output; when the session drops (the device restarts), reconnect once with the
   * effective timeout and return `""`; any other exception propagates.
   */
  method InstallCommit(admin: Option<string>, timeout: Option<int>, reply: ExecOutcome)
    returns (r: Result<string, Failure>, trace: seq<Event>)
    ensures reply.Output? ==> r == Ok(reply.text) &&
                               trace == [Execute(InstallCommitCommand(admin)), Sleep(InstallCommitTimeout)]
    ensures reply == Failed(SessionFailure) ==>
              r == Ok("") && trace == [Execute(InstallCommitCommand(admin)), Reconnect(EffectiveTimeout(timeout))]
    ensures reply == Failed(OtherFailure) ==>
              r == Err(Propagated(OtherFailure)) && trace == [Execute(InstallCommitCommand(admin))]
  {
    var result := "";
    var t: int;
    if timeout.None? || timeout.value == 0 {
      t := RestartTimeout;
    } else {
      t := timeout.value;
    }
    trace := [Execute(InstallCommitCommand(admin))];
    match reply {
      case Output(text) =>
        result := text;
        trace := trace + [Sleep(InstallCommitTimeout)];
      case Failed(SessionFailure) =>
        trace := trace + [Reconnect(t)];
      case Failed(OtherFailure) =>
        return Err(Propagated(OtherFailure)), trace;
    }
    r := Ok(result);
  }

  /** The number of reconnects in a trace. */
  function Reconnects(trace: seq<Event>): (n: nat)
    ensures n <= |trace|
  {
    if |trace| == 0 then 0
    else (if trace[0].Reconnect? then 1 else 0) + Reconnects(trace[1..])
  }

  // ---------------------------------------------------------------- show_install_request

  function ShowInstallRequestCommand(): (c: Command)
    ensures c.template == Cli.ShowInstallRequest && c.args == [] && c.timeout.None?
  {
    Command(Cli.ShowInstallRequest, [], None)
  }

  /**
   * How the polling ended: the device reported no install operation (`True`), the
   * budget ran out with the operation not progressing (`None`), or the given polls
   * ran out while the loop would go on (a bound of this model, not of the device code).
   */
  datatype PollOutcome = Completed | GaveUp | Pending

  /** The end of a polling run: outcome, final `retry` and `result`, effects, and polls consumed. */
  datatype PollRun = PollRun(outcome: PollOutcome, retry: nat, result: string, trace: seq<Event>, polled: nat)

  /** The loop condition: the operation is progressing, or the budget is not spent. */
  predicate KeepPolling(operationId: string, retry: nat, result: string)
    ensures InProgress(operationId, result) ==> KeepPolling(operationId, retry, result)
    ensures !KeepPolling(operationId, retry, result) ==> retry >= ShowRequestMaxRetry
  {
    InProgress(operationId, result) || retry < ShowRequestMaxRetry
  }

  /** `retry` after an iteration: one more unless the current result shows progress. */
  function Bump(operationId: string, retry: nat, result: string): (n: nat)
    ensures n == retry || n == retry + 1
    ensures n == retry <==> InProgress(operationId, result)
  {
    if InProgress(operationId, result) then retry else retry + 1
  }

  /**
   * The polling loop from poll `i` on, with `retry` and `result` as they stand before
   * the loop test; `polls` gives what each execution of the request command produces.
   */
  function Run(operationId: string, polls: seq<ExecOutcome>, i: nat, retry: nat, result: string): (r: PollRun)
    requires i <= |polls|
    ensures i <= r.polled <= |polls|
    decreases |polls| - i
  {
    if !KeepPolling(operationId, retry, result) then PollRun(GaveUp, retry, result, [], i)
    else if i == |polls| then PollRun(Pending, retry, result, [], i)
    else
      var poll := Execute(ShowInstallRequestCommand());
      match polls[i]
      case Output(text) =>
        if NoOp(text) then PollRun(Completed, retry, text, [poll], i + 1)
        else
          var rest := Run(operationId, polls, i + 1, Bump(operationId, retry, text), text);
          rest.(trace := ProgressStep + rest.trace)
      case Failed(_) =>
        var rest := Run(operationId, polls, i + 1, Bump(operationId, retry, result), result);
        rest.(trace := FailureStep + rest.trace)
  }

  /** The state `retry` and `result` keep at every loop test. */
  predicate RetryInvariant(operationId: string, retry: nat, result: string)
  {
    retry <= ShowRequestMaxRetry && (retry == ShowRequestMaxRetry ==> !InProgress(operationId, result))
  }

  /**
   * `show_install_request`: poll until the device reports no install operation, or
   * until the operation has stopped progressing and the retry budget is spent. A poll
   * that raises is followed by a reconnect and leaves `result` as it was.
   */
  method ShowInstallRequest(operationId: string, polls: seq<ExecOutcome>) returns (run: PollRun)
    ensures run == Run(operationId, polls, 0, 0, "")
    ensures run.retry <= ShowRequestMaxRetry
    ensures run.outcome == GaveUp ==> run.retry == ShowRequestMaxRetry && !InProgress(operationId, run.result)
  {
    var retry: nat := 0;
    var result := "";
    var trace: seq<Event> := [];
    var i := 0;
    while InProgress(operationId, result) || retry < ShowRequestMaxRetry
      invariant i <= |polls|
      invariant RetryInvariant(operationId, retry, result)
      invariant var rest := Run(operationId, polls, i, retry, result);
                rest.(trace := trace + rest.trace) == Run(operationId, polls, 0, 0, "")
      decreases |polls| - i
    {
      if i == |polls| {
        return PollRun(Pending, retry, result, trace, i);
      }
      RunUnfold(operationId, polls, i, retry, result);
      var step;
      match polls[i] {
        case Output(text) =>
          result := text;
          if NoOp(result) {
            return PollRun(Completed, retry, result, trace + [Execute(ShowInstallRequestCommand())], i + 1);
          }
          step := ProgressStep;
        case Failed(_) =>
          step := FailureStep;
      }
      if !InProgress(operationId, result) {
        retry := retry + 1;
      }
      i := i + 1;
      ghost var rest := Run(operationId, polls, i, retry, result);
      ConcatAssoc(trace, step, rest.trace);
      trace := trace + step;
    }
    run := PollRun(GaveUp, retry, result, trace, i);
  }

  lemma ConcatAssoc(a: seq<Event>, b: seq<Event>, c: seq<Event>)
    ensures a + (b + c) == (a + b) + c
  {
  }

  /** One iteration of the loop, as `Run` describes it. */
  lemma RunUnfold(operationId: string, polls: seq<ExecOutcome>, i: nat, retry: nat, result: string)
    requires i < |polls| && KeepPolling(operationId, retry, result)
    ensures var here := Run(operationId, polls, i, retry, result);
            match polls[i]
            case Output(text) =>
              if NoOp(text) then here == PollRun(Completed, retry, text, [Execute(ShowInstallRequestCommand())], i + 1)
              else var rest := Run(operationId, polls, i + 1, Bump(operationId, retry, text), text);
                   here == rest.(trace := ProgressStep + rest.trace)
            case Failed(_) =>
              var rest := Run(operationId, polls, i + 1, Bump(operationId, retry, result), result);
              here == rest.(trace := FailureStep + rest.trace)
  {
  }

  /** The number of polls in `polls[i..j]` that raised. */
  function Failures(polls: seq<ExecOutcome>, i: nat, j: nat): (n: nat)
    requires i <= j <= |polls|
    ensures n <= j - i
    decreases j - i
  {
    if i == j then 0 else (if polls[i].Failed? then 1 else 0) + Failures(polls, i + 1, j)
  }

  /** The number of executions of the request command in a trace. */
  function Executions(trace: seq<Event>): (n: nat)
    ensures n <= |trace|
  {
    if |trace| == 0 then 0
    else (if trace[0].Execute? then 1 else 0) + Executions(trace[1..])
  }

  lemma CountsConcat(a: seq<Event>, b: seq<Event>)
    ensures Reconnects(a + b) == Reconnects(a) + Reconnects(b)
    ensures Executions(a + b) == Executions(a) + Executions(b)
  {
    if |a| > 0 {
      assert (a + b)[1..] == a[1..] + b;
      CountsConcat(a[1..], b);
    } else {
      assert a + b == b;
    }
  }

  /**
   * The retry budget: `retry` never decreases and never passes the maximum, and the
   * loop gives up only with the budget spent and a last result showing no progress.
   */
  lemma {:induction false} RunRetryBound(operationId: string, polls: seq<ExecOutcome>, i: nat, retry: nat, result: string)
    requires i <= |polls|
    requires RetryInvariant(operationId, retry, result)
    ensures var r := Run(operationId, polls, i, retry, result);
            retry <= r.retry <= ShowRequestMaxRetry &&
            (r.outcome == GaveUp ==> r.retry == ShowRequestMaxRetry && !InProgress(operationId, r.result))
    decreases |polls| - i
  {
    if KeepPolling(operationId, retry, result) && i < |polls| {
      match polls[i]
      case Output(text) =>
        if !NoOp(text) {
          RunRetryBound(operationId, polls, i + 1, Bump(operationId, retry, text), text);
        }
      case Failed(_) =>
        RunRetryBound(operationId, polls, i + 1, Bump(operationId, retry, result), result);
    }
  }

  /**
   * The loop returns `True` exactly when the last poll it made answered that no
   * install operation is in progress; no earlier poll did. A pending run has used
   * every given poll.
   */
  lemma {:induction false} RunCompletion(operationId: string, polls: seq<ExecOutcome>, i: nat, retry: nat, result: string)
    requires i <= |polls|
    ensures var r := Run(operationId, polls, i, retry, result);
            (r.outcome == Completed <==>
               i < r.polled && polls[r.polled - 1].Output? && NoOp(polls[r.polled - 1].text)) &&
            (r.outcome == Completed ==> r.result == polls[r.polled - 1].text) &&
            (forall j | i <= j < r.polled - 1 :: !(polls[j].Output? && NoOp(polls[j].text))) &&
            (r.outcome == Pending ==> r.polled == |polls|)
    decreases |polls| - i
  {
    if KeepPolling(operationId, retry, result) && i < |polls| {
      match polls[i]
      case Output(text) =>
        if !NoOp(text) {
          RunCompletion(operationId, polls, i + 1, Bump(operationId, retry, text), text);
        }
      case Failed(_) =>
        RunCompletion(operationId, polls, i + 1, Bump(operationId, retry, result), result);
    }
  }

  /**
   * Every poll executes the request command once, and every poll that raised, and
   * only those, is followed by one reconnect with the restart timeout.
   */
  lemma {:induction false} RunReconnects(operationId: string, polls: seq<ExecOutcome>, i: nat, retry: nat, result: string)
    requires i <= |polls|
    ensures var r := Run(operationId, polls, i, retry, result);
            Executions(r.trace) == r.polled - i &&
            Reconnects(r.trace) == Failures(polls, i, r.polled)
    decreases |polls| - i
  {
    var r := Run(operationId, polls, i, retry, result);
    StepCounts();
    if KeepPolling(operationId, retry, result) && i < |polls| {
      match polls[i]
      case Output(text) =>
        if NoOp(text) {
          assert Failures(polls, i + 1, i + 1) == 0;
        } else {
          var rest := Run(operationId, polls, i + 1, Bump(operationId, retry, text), text);
          RunReconnects(operationId, polls, i + 1, Bump(operationId, retry, text), text);
          CountsConcat(ProgressStep, rest.trace);
        }
      case Failed(_) =>
        var rest := Run(operationId, polls, i + 1, Bump(operationId, retry, result), result);
        RunReconnects(operationId, polls, i + 1, Bump(operationId, retry, result), result);
        CountsConcat(FailureStep, rest.trace);
    }
  }

  /** Every reconnect the loop asks for waits the 600 s restart timeout. */
  lemma {:induction false} RunReconnectTimeouts(operationId: string, polls: seq<ExecOutcome>, i: nat, retry: nat, result: string)
    requires i <= |polls|
    ensures forall e | e in Run(operationId, polls, i, retry, result).trace && e.Reconnect? :: e.timeout == RestartTimeout
    decreases |polls| - i
  {
    if KeepPolling(operationId, retry, result) && i < |polls| {
      match polls[i]
      case Output(text) =>
        if !NoOp(text) {
          RunReconnectTimeouts(operationId, polls, i + 1, Bump(operationId, retry, text), text);
        }
      case Failed(_) =>
        RunReconnectTimeouts(operationId, polls, i + 1, Bump(operationId, retry, result), result);
    }
  }

  /** The events of one poll that answered but showed an operation still in place. */
  const ProgressStep: seq<Event> := [Execute(ShowInstallRequestCommand()), Sleep(ShowRequestTimeout)]

  /** The events of one poll that raised. */
  const FailureStep: seq<Event> :=
    [Execute(ShowInstallRequestCommand()), Reconnect(RestartTimeout), Sleep(ShowRequestTimeout)]

  /** Each poll executes the request once; only a poll that raised reconnects. */
  lemma StepCounts()
    ensures Executions([Execute(ShowInstallRequestCommand())]) == 1
    ensures Reconnects([Execute(ShowInstallRequestCommand())]) == 0
    ensures Executions(ProgressStep) == 1 && Reconnects(ProgressStep) == 0
    ensures Executions(FailureStep) == 1 && Reconnects(FailureStep) == 1
  {
    var sleep: seq<Event> := [Sleep(ShowRequestTimeout)];
    assert Executions(sleep) == 0 && Reconnects(sleep) == 0 by {
      assert sleep[1..] == [];
    }
    assert ProgressStep[1..] == sleep;
    assert FailureStep[1..][1..] == sleep;
    assert [Execute(ShowInstallRequestCommand())][1..] == [];
  }

  /**
   * While every poll shows the operation progressing, the loop never gives up, however
   * often it has polled before: it uses every given poll and spends no budget.
   */
  lemma {:induction false} ProgressNeverGivesUp(operationId: string, polls: seq<ExecOutcome>, i: nat, retry: nat, result: string)
    requires i <= |polls|
    requires KeepPolling(operationId, retry, result)
    requires forall j | i <= j < |polls| ::
               polls[j].Output? && InProgress(operationId, polls[j].text) && !NoOp(polls[j].text)
    ensures var r := Run(operationId, polls, i, retry, result);
            r.outcome == Pending && r.polled == |polls| && r.retry == retry
    decreases |polls| - i
  {
    if i < |polls| {
      ProgressNeverGivesUp(operationId, polls, i + 1, retry, polls[i].text);
    }
  }

  /**
   * Polls that answer but show neither progress nor completion each spend one unit of
   * budget: the loop gives up after exactly the remaining budget of them.
   */
  lemma {:induction false} StalledGivesUp(operationId: string, polls: seq<ExecOutcome>, i: nat, retry: nat, result: string)
    requires RetryInvariant(operationId, retry, result)
    requires i + (ShowRequestMaxRetry - retry) <= |polls|
    requires forall j | i <= j < i + (ShowRequestMaxRetry - retry) ::
               polls[j].Output? && !InProgress(operationId, polls[j].text) && !NoOp(polls[j].text)
    ensures var r := Run(operationId, polls, i, retry, result);
            r.outcome == GaveUp && r.polled == i + (ShowRequestMaxRetry - retry) && r.retry == ShowRequestMaxRetry
    decreases ShowRequestMaxRetry - retry
  {
    if retry < ShowRequestMaxRetry {
      StalledGivesUp(operationId, polls, i + 1, retry + 1, polls[i].text);
    }
  }

  /**
   * A poll that raises leaves `result` as it was, so it spends budget exactly when the
   * previous result showed no progress: polls that keep raising right after a progress
   * report never exhaust the budget, while from the start (`result` empty) they do.
   */
  lemma {:induction false} FailuresKeepResult(operationId: string, polls: seq<ExecOutcome>, i: nat, retry: nat, result: string)
    requires i <= |polls|
    requires KeepPolling(operationId, retry, result)
    requires forall j | i <= j < |polls| :: polls[j].Failed?
    ensures var r := Run(operationId, polls, i, retry, result);
            r.result == result &&
            (InProgress(operationId, result) ==> r.outcome == Pending && r.polled == |polls| && r.retry == retry) &&
            (!InProgress(operationId, result) ==> r.polled == i + Min(ShowRequestMaxRetry - retry, |polls| - i))
    decreases |polls| - i
  {
    if i < |polls| {
      var next := Bump(operationId, retry, result);
      if KeepPolling(operationId, next, result) {
        FailuresKeepResult(operationId, polls, i + 1, next, result);
      }
    }
  }

  function Min(a: int, b: int): int
  {
    if a <= b then a else b
  }

  /**
   * A typical install: progress, a dropped session while the device restarts, then no
   * operation left. The loop returns `True` after three polls and one reconnect, and
   * spends no budget.
   */
  lemma ProgressRestartDone(operationId: string, progress: string, done: string, kind: ExecFailure)
    requires InProgress(operationId, progress) && !NoOp(progress) && NoOp(done)
    ensures var poll := Execute(ShowInstallRequestCommand());
            Run(operationId, [Output(progress), Failed(kind), Output(done)], 0, 0, "") ==
              PollRun(Completed, 0, done,
                      [poll, Sleep(ShowRequestTimeout), poll, Reconnect(RestartTimeout), Sleep(ShowRequestTimeout), poll], 3)
  {
    var polls := [Output(progress), Failed(kind), Output(done)];
    var r2 := Run(operationId, polls, 2, 0, progress);
    var r1 := Run(operationId, polls, 1, 0, progress);
    assert r1 == r2.(trace := [Execute(ShowInstallRequestCommand()), Reconnect(RestartTimeout), Sleep(ShowRequestTimeout)] + r2.trace);
  }

  // ---------------------------------------------------------------- prepare_output

  /** One `"key: value"` line per entry of the dictionary, in its iteration order. */
  function OutputLines(items: seq<(string, string)>): (lines: seq<string>)
    ensures |lines| == |items|
    ensures forall i | 0 <= i < |items| :: lines[i] == items[i].0 + ": " + items[i].1
  {
    seq(|items|, i requires 0 <= i < |items| => items[i].0 + ": " + items[i].1)
  }

  /** `prepare_output`: the lines joined by line breaks; an empty dictionary gives `""`. */
  function PrepareOutput(items: seq<(string, string)>): (out: string)
    ensures out == "" <==> |items| == 0
  {
    var lines := OutputLines(items);
    JoinEmpty('\n', lines);
    assert |items| > 0 ==> |lines[0]| >= 2;
    Join('\n', lines)
  }

  /**
   * Reading the output back line by line gives each entry as `key: value`, in order,
   * when no key or value holds a line break.
   */
  lemma PrepareOutputLines(items: seq<(string, string)>)
    requires |items| > 0
    requires forall i | 0 <= i < |items| :: '\n' !in items[i].0 && '\n' !in items[i].1
    ensures var lines := Split('\n', PrepareOutput(items));
            |lines| == |items| &&
            forall i | 0 <= i < |items| :: lines[i] == items[i].0 + ": " + items[i].1
  {
    var lines := OutputLines(items);
    forall i | 0 <= i < |lines| ensures '\n' !in lines[i] {
      assert lines[i] == items[i].0 + ": " + items[i].1;
    }
    SplitJoin('\n', lines);
  }
}
