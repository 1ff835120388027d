/**
 * CiscoIOSXRConfigurationFlow._restore_flow: normalise the configuration type, refuse
 * the startup configuration, and restore the running configuration either by
 * overriding it (load then commit-replace inside configuration mode) or by
 * appending to it (a single copy).
 */
module ConfigurationFlow {

  import opened Wrappers
  import opened Text
  import opened Cli
  import opened CommandModes
  import opened SystemActions

  /** `configuration_type` with `-config` appended unless it already holds it. */
  function NormaliseType(configurationType: string): (t: string)
    ensures Contains(configurationType, "-config") ==> t == configurationType
    ensures !Contains(configurationType, "-config") ==> t == configurationType + "-config"
    ensures Contains(t, "-config")
  {
    if Contains(configurationType, "-config") then configurationType
    else
      assert MatchAt(configurationType + "-config", |configurationType|, "-config") by {
        assert (configurationType + "-config")[|configurationType|..|configurationType| + 7] == "-config";
      }
      configurationType + "-config"
  }

  /** Normalising twice is normalising once. */
  lemma NormaliseIdempotent(configurationType: string)
    ensures NormaliseType(NormaliseType(configurationType)) == NormaliseType(configurationType)
  {
  }

  /**
   * The suffix never creates or hides `startup` or `running`: the decisions taken on
   * the normalised type are the decisions on the type as given.
   */
  lemma {:induction false} NormaliseKeepsKind(configurationType: string)
    ensures Contains(NormaliseType(configurationType), "startup") <==> Contains(configurationType, "startup")
    ensures Contains(NormaliseType(configurationType), "running") <==> Contains(configurationType, "running")
  {
    if !Contains(configurationType, "-config") {
      SuffixLacks("startup");
      SuffixLacks("running");
      ContainsConcat(configurationType, "-config", "startup");
      ContainsConcat(configurationType, "-config", "running");
    }
  }

  /** `-config` holds neither keyword; it is as long as each, and starts differently. */
  lemma SuffixLacks(w: string)
    requires w == "startup" || w == "running"
    ensures !Contains("-config", w)
  {
    var u := "-config";
    forall i | 0 <= i <= |u| ensures !MatchAt(u, i, w) {
      if i == 0 {
        assert u[0..7][0] != w[0];
      }
    }
  }

  /** What the flow asks of the device, in order. */
  datatype Action =
    | EnterMode(mode: Mode)
    | LeaveMode(mode: Mode)
    | Issue(cmd: Command)
    | Copy(source: string, destination: string, vrf: Option<string>, actionMap: ActionMap)

  /** The actions taken and how the flow ended. */
  datatype FlowRun = FlowRun(actions: seq<Action>, result: Result<(), Failure>)

  const StartupUnsupported: string := "Startup configuration is not supported by IOS-XR"

  /**
   * `_restore_flow`. The executor's answers to the load and to the commit-replace, and
   * the outcome of the copy (an operation of the generic Cisco package), are given.
   * Leaving the `with` block of configuration mode is recorded whether or not the
   * load raised.
   */
  function RestoreFlow(parse: string -> UrlParts, path: string, configurationType: string,
                       restoreMethod: string, vrf: Option<string>,
                       loadReply: ExecOutcome, replaceReply: ExecOutcome,
                       copyResult: Result<(), Failure>): (run: FlowRun)
    ensures Contains(configurationType, "startup") ==>
              run == FlowRun([], Err(Raised([StartupUnsupported])))
    ensures !Contains(configurationType, "startup") && !Contains(configurationType, "running") ==>
              run == FlowRun([], Ok(()))
    ensures !Contains(configurationType, "startup") && Contains(configurationType, "running") &&
            restoreMethod != "override" ==>
              var t := NormaliseType(configurationType);
              run == FlowRun([Copy(path, t, vrf, ActionMapFor(parse, path, t))], copyResult)
    ensures !Contains(configurationType, "startup") && Contains(configurationType, "running") &&
            restoreMethod == "override" ==>
              |run.actions| >= 3 &&
              run.actions[0] == EnterMode(Config) &&
              run.actions[1] == Issue(LoadCommand(path, vrf)) &&
              run.actions[|run.actions| - 1] == LeaveMode(Config) &&
              (ValidateLoad(loadReply).Err? ==>
                 run == FlowRun(run.actions[..2] + [LeaveMode(Config)], Err(ValidateLoad(loadReply).error))) &&
              (ValidateLoad(loadReply).Ok? ==>
                 run.actions == run.actions[..2] + [Issue(CommitReplaceCommand()), LeaveMode(Config)] &&
                 (run.result.Ok? <==> ValidateReplace(replaceReply).Ok?) &&
                 (run.result.Err? ==> run.result.error == ValidateReplace(replaceReply).error))
  {
    NormaliseKeepsKind(configurationType);
    var t := NormaliseType(configurationType);
    if Contains(t, "startup") then FlowRun([], Err(Raised([StartupUnsupported])))
    else if Contains(t, "running") then
      if restoreMethod == "override" then
        var load := Issue(LoadCommand(path, vrf));
        match ValidateLoad(loadReply)
        case Err(e) => FlowRun([EnterMode(Config), load, LeaveMode(Config)], Err(e))
        case Ok(_) =>
          var actions := [EnterMode(Config), load, Issue(CommitReplaceCommand()), LeaveMode(Config)];
          match ValidateReplace(replaceReply)
          case Err(e) => FlowRun(actions, Err(e))
          case Ok(_) => FlowRun(actions, Ok(()))
      else
        FlowRun([Copy(path, t, vrf, ActionMapFor(parse, path, t))], copyResult)
    else FlowRun([], Ok(()))
  }

  /**
   * The commit-replace is issued only after a successful load, and nothing but the
   * override path enters configuration mode.
   */
  lemma ReplaceOnlyAfterLoad(parse: string -> UrlParts, path: string, configurationType: string,
                             restoreMethod: string, vrf: Option<string>,
                             loadReply: ExecOutcome, replaceReply: ExecOutcome,
                             copyResult: Result<(), Failure>)
    ensures var run := RestoreFlow(parse, path, configurationType, restoreMethod, vrf, loadReply, replaceReply, copyResult);
            (Issue(CommitReplaceCommand()) in run.actions ==>
               restoreMethod == "override" && ValidateLoad(loadReply).Ok?) &&
            (EnterMode(Config) in run.actions <==>
               !Contains(configurationType, "startup") && Contains(configurationType, "running") &&
               restoreMethod == "override")
  {
    var run := RestoreFlow(parse, path, configurationType, restoreMethod, vrf, loadReply, replaceReply, copyResult);
    if !Contains(configurationType, "startup") && Contains(configurationType, "running") && restoreMethod == "override" {
      if ValidateLoad(loadReply).Err? {
        assert run.actions == [EnterMode(Config), Issue(LoadCommand(path, vrf)), LeaveMode(Config)];
      } else {
        assert run.actions == [EnterMode(Config), Issue(LoadCommand(path, vrf)), Issue(CommitReplaceCommand()), LeaveMode(Config)];
      }
    }
  }
}
