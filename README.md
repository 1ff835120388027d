# Cisco IOS-XR device actions, modelled in Dafny

This project models the IOS-XR-specific part of the CloudShell Cisco IOS-XR shell. That part sits on top of the generic CLI library. It covers:

- **Configuration actions** (`CiscoIOSXRSystemActions`):
  - `load` judges the device's answer to `load` by its byte-count report and raises with a diagnostic otherwise;
  - `replace_config` judges the answer to `commit replace` by its error lines;
  - `prepare_action_map` builds the ordered prompt → reply dictionary used by an interactive copy.
- **Admin install actions** (`CiscoIOSXRAdminSystemActions`):
  - `install_commit` reconnects when the device restarts under it;
  - `show_install_request` polls an install request with a retry budget;
  - `prepare_output` formats a result dictionary;
  - the command wrappers and the timeout and retry constants (10 retries, 600 s restart, 30 s between polls, 20 s after a commit, 3000 s for `install add source`).
- **Restore flow** (`CiscoIOSXRConfigurationFlow._restore_flow`):
  - normalises the configuration type;
  - refuses the startup configuration;
  - restores the running one either by override (load, then commit-replace, in configuration mode) or by append (one copy).
- **Command modes**: the configuration and admin modes (prompts, enter and exit commands, action and error maps) and the mode relation tree `RELATIONS_DICT`.

Modules:

- `Wrappers`: `Option` and `Result`.
- `Text`: character classes, literal matching, runs and lines, and Python's `join` and `split`.
- `Cli`: what the device code sees of the CLI library. It has:
  - the command templates and the commands handed to the executor;
  - the executor's outcome, either the output or a `SessionException` or other exception;
  - the effects `execute`, `reconnect` and `sleep`, recorded as a trace;
  - the insertion-ordered dictionary and its assignment semantics.
- `Patterns`: each fixed regular expression of the actions as a predicate, or as a leftmost-match function where the matched text is used.
- `SystemActions`, `AdminSystemActions`, `ConfigurationFlow`, `CommandModes`: one per class or file of the device code.

The executor, `UrlParser` and the copy operation of the generic Cisco package are parameters. Polling is driven by a finite list of poll outcomes. When the list runs out while the loop would go on, the run ends as `Pending`, which is a horizon of the model and not an outcome of the device code. Methods change no state; they return the trace of effects they ask of the session.

## Model

| member | source | states |
|---|---|---|
| SystemActions.LoadCommand | cloudshell/networking/cisco/iosxr/command_actions/system.py:53-63 | LOAD gets `source_file` first, and gets a `vrf` argument exactly when `vrf` is truthy; that argument carries the given vrf |
| SystemActions.LoadFailureMessage | cloudshell/networking/cisco/iosxr/command_actions/system.py:71-80 | the diagnostic is `"load error: "` plus the leftmost error-pattern match, or the fixed "Failed to restore configuration, please check logs" when nothing matches |
| SystemActions.ValidateLoad | cloudshell/networking/cisco/iosxr/command_actions/system.py:65-84 | the output is returned unchanged iff the success byte-count pattern matches; otherwise the failure is `("validate_load_success", diagnostic)`; executor exceptions pass through |
| SystemActions.LoadDiagnosticQuotesOutput | cloudshell/networking/cisco/iosxr/command_actions/system.py:71-82 | a failed load's diagnostic is the fixed message or quotes text found at the leftmost position where the error pattern matches |
| SystemActions.LoadAcceptsBracketedCount | cloudshell/networking/cisco/iosxr/command_actions/system.py:65-70 | any output holding `[` or `(`, a count with no leading zero, `)` or `]`, then `bytes` in any case later on the same line, is accepted and returned unchanged, whatever text surrounds it |
| SystemActions.LoadAcceptsParsedCount | cloudshell/networking/cisco/iosxr/command_actions/system.py:65-70 | any output with a line that starts with a count with no leading zero, then white space, `bytes`, white space and `parsed` (words in any case), is accepted and returned unchanged, whatever text surrounds it |
| SystemActions.LoadQuotesPercentBanner | cloudshell/networking/cisco/iosxr/command_actions/system.py:71-82 | any one-line output that starts with `%` and reports no count is rejected, and the whole of it is quoted after `"load error: "` |
| SystemActions.NoCountWithoutDigits | cloudshell/networking/cisco/iosxr/command_actions/system.py:65-70 | output with no `[`, no `(` and no non-zero digit never reports a successful load |
| Patterns.SuccessLoad | cloudshell/networking/cisco/iosxr/command_actions/system.py:65-70 | the success pattern matches at some position: a bracketed count with `bytes` later on its line, or a line-initial count followed by `bytes` and `parsed` or `process+ed`, ignoring case; so no output shorter than `[1]bytes` (eight characters) is a success |
| Patterns.LoadErrorAt | cloudshell/networking/cisco/iosxr/command_actions/system.py:73-77 | the text the error pattern matches at a position: ` Can't assign requested address`, `error:` through the next line break, or `%` to the end of its line, ignoring case; any match is a non-empty piece of the output found there |
| SystemActions.CommitReplaceCommand | cloudshell/networking/cisco/iosxr/command_actions/system.py:86-92 | the commit-replace template is run with no arguments |
| SystemActions.ValidateReplace | cloudshell/networking/cisco/iosxr/command_actions/system.py:94-101 | fails iff an error line is found, with `("validate_replace_config_success", "load error: " + line)`; otherwise returns the output unchanged; executor exceptions pass through |
| SystemActions.ReplaceFailsIffErrorLine | cloudshell/networking/cisco/iosxr/command_actions/system.py:94-101 | the commit-replace fails exactly when `ERROR`, `Error` or `error` occurs with a line break somewhere after it |
| SystemActions.ReplaceDiagnosticIsErrorLine | cloudshell/networking/cisco/iosxr/command_actions/system.py:94-100 | the quoted line runs from the keyword to its line break, holds no other line break, and is the first such in the output |
| Patterns.LoadErrorMatch | cloudshell/networking/cisco/iosxr/command_actions/system.py:73-77 | `None` iff no position matches the error pattern; otherwise the match at the leftmost matching position |
| Patterns.InProgress | cloudshell/networking/cisco/iosxr/command_actions/system.py:209-213 | the progress pattern `operation <id> is <digits>% complete` matches somewhere in the result, ignoring case (the same test decides whether a poll spends a retry, lines 230-234); a match needs at least the id plus 25 characters |
| Patterns.NoOp | cloudshell/networking/cisco/iosxr/command_actions/system.py:223-225 | `No install operation in progress` occurs in the result, ignoring case, so the result is at least that long |
| Patterns.ReplaceErrorAt | cloudshell/networking/cisco/iosxr/command_actions/system.py:94 | a match exists at `i` iff an error keyword starts there with a line break after it; the match is that line including its break |
| Patterns.ReplaceErrorMatch | cloudshell/networking/cisco/iosxr/command_actions/system.py:94 | `None` iff no position matches; otherwise the match at the leftmost matching position |
| Cli.Insert | cloudshell/networking/cisco/iosxr/command_actions/system.py:26-49 | `d[k] = v`: a new key is appended and an existing key keeps its place; `k` now gives `v` and every other key is unchanged |
| Cli.AssignIsOrderedDict | cloudshell/networking/cisco/iosxr/command_actions/system.py:22-49 | successive assignments give the keys in order of first assignment, each holding the value assigned last |
| Cli.AssignDistinct | cloudshell/networking/cisco/iosxr/command_actions/system.py:22-49 | when no key is assigned twice, the dictionary is the assignments in order |
| SystemActions.ActionMapFor | cloudshell/networking/cisco/iosxr/command_actions/system.py:20-51 | the dictionary's keys are the candidate prompts deduplicated in order of first assignment, and each prompt holds its last assigned reply |
| SystemActions.PrepareActionMap | cloudshell/networking/cisco/iosxr/command_actions/system.py:20-51 | the successive assignments build exactly `ActionMapFor` |
| SystemActions.FileNamePromptsCollide | cloudshell/networking/cisco/iosxr/command_actions/system.py:26-32 | the destination and source prompts are equal iff the source file name is `.*` followed by the destination file name |
| SystemActions.PromptsDiffer | cloudshell/networking/cisco/iosxr/command_actions/system.py:26-49 | the username, password and host prompts differ from each other and from both file-name prompts |
| SystemActions.ActionMapOrder | cloudshell/networking/cisco/iosxr/command_actions/system.py:22-51 | unless the file-name prompts collide, the keys are the destination prompt, then the source prompt, then the username, password and host prompts of the destination URL, each only when present |
| SystemActions.ActionMapReplies | cloudshell/networking/cisco/iosxr/command_actions/system.py:23-49 | the username and password prompts send the destination URL's credentials and are absent without them; the file-name and host prompts and every other entry send an empty line |
| AdminSystemActions.InstallAddSourceCommand | cloudshell/networking/cisco/iosxr/command_actions/system.py:123-145 | `install add source` gets its five arguments in call order and the 3000 s timeout |
| AdminSystemActions.InstallActivateCommand | cloudshell/networking/cisco/iosxr/command_actions/system.py:147-155 | `install activate` gets the feature names as one argument, then `admin` |
| AdminSystemActions.ActivateArgumentSplits | cloudshell/networking/cisco/iosxr/command_actions/system.py:155 | splitting the feature-name argument at spaces gives back the names when there is at least one and none holds a space |
| AdminSystemActions.InstallCommitCommand | cloudshell/networking/cisco/iosxr/command_actions/system.py:170-175 | the install-commit template gets only `admin` |
| AdminSystemActions.EffectiveTimeout | cloudshell/networking/cisco/iosxr/command_actions/system.py:166-168 | a missing or zero timeout becomes the 600 s restart timeout; any other timeout is kept |
| AdminSystemActions.InstallCommit | cloudshell/networking/cisco/iosxr/command_actions/system.py:165-179 | on an answer: returns the output, sleeps 20 s and does not reconnect; on a dropped session: reconnects once with the effective timeout and returns `""`; on any other exception: propagates it |
| AdminSystemActions.Bump | cloudshell/networking/cisco/iosxr/command_actions/system.py:230-235 | `retry` grows by one exactly when the current result does not report the operation in progress |
| AdminSystemActions.KeepPolling | cloudshell/networking/cisco/iosxr/command_actions/system.py:208-215 | the loop test: polling always goes on while the result shows the operation in progress, and it stops only once at least 10 retries are spent |
| AdminSystemActions.Run | cloudshell/networking/cisco/iosxr/command_actions/system.py:205-237 | the polling loop as a function of the poll outcomes; it never consumes more polls than it is given |
| AdminSystemActions.ShowInstallRequest | cloudshell/networking/cisco/iosxr/command_actions/system.py:205-237 | the loop computes `Run` from `retry = 0`, `result = ""`; `retry` stays within 10; giving up (`None`) happens only with `retry == 10` and a last result showing no progress |
| AdminSystemActions.RunRetryBound | cloudshell/networking/cisco/iosxr/command_actions/system.py:206-235 | from any state within the budget, `retry` never decreases and never passes 10, and the loop gives up only with the budget spent and no progress shown |
| AdminSystemActions.RunCompletion | cloudshell/networking/cisco/iosxr/command_actions/system.py:223-226 | the loop returns `True` iff its last poll answered "No install operation in progress"; no earlier poll did; a pending run has used every poll |
| AdminSystemActions.RunReconnects | cloudshell/networking/cisco/iosxr/command_actions/system.py:216-228 | each poll executes the request once; the reconnects equal the polls that raised |
| AdminSystemActions.RunReconnectTimeouts | cloudshell/networking/cisco/iosxr/command_actions/system.py:226-228 | every reconnect of the polling loop waits the 600 s restart timeout |
| AdminSystemActions.ProgressNeverGivesUp | cloudshell/networking/cisco/iosxr/command_actions/system.py:208-235 | while every poll reports progress, the loop never gives up and spends no budget |
| AdminSystemActions.StalledGivesUp | cloudshell/networking/cisco/iosxr/command_actions/system.py:208-235 | polls that answer with neither progress nor completion each spend one retry; the loop gives up after exactly the remaining budget of them |
| AdminSystemActions.FailuresKeepResult | cloudshell/networking/cisco/iosxr/command_actions/system.py:216-235 | a raising poll leaves `result` unchanged; after a progress report, failures never spend budget; otherwise each one spends a retry |
| AdminSystemActions.ProgressRestartDone | cloudshell/networking/cisco/iosxr/command_actions/system.py:205-237 | progress, then a dropped session, then "no operation" gives `True` after three polls, one reconnect and no retry spent |
| AdminSystemActions.OutputLines | cloudshell/networking/cisco/iosxr/command_actions/system.py:240-242 | one `"key: value"` line per entry, in iteration order |
| AdminSystemActions.PrepareOutput | cloudshell/networking/cisco/iosxr/command_actions/system.py:239-242 | the output is empty iff the dictionary is empty |
| AdminSystemActions.PrepareOutputLines | cloudshell/networking/cisco/iosxr/command_actions/system.py:239-242 | splitting the output at line breaks gives back each entry as `key: value`, in order, when no key or value holds a line break |
| ConfigurationFlow.NormaliseType | cloudshell/networking/cisco/iosxr/flows/configuration.py:37-38 | `-config` is appended iff the type does not already contain it; the result always contains it |
| ConfigurationFlow.NormaliseIdempotent | cloudshell/networking/cisco/iosxr/flows/configuration.py:37-38 | normalising twice is normalising once |
| ConfigurationFlow.NormaliseKeepsKind | cloudshell/networking/cisco/iosxr/flows/configuration.py:37-47 | the normalised type contains `startup`, or `running`, iff the given type does |
| ConfigurationFlow.RestoreFlow | cloudshell/networking/cisco/iosxr/flows/configuration.py:19-65 | startup: raises "Startup configuration is not supported by IOS-XR", with no action, checked first; running + override: enter config mode, load, then commit-replace only if the load passed, then leave; running + other method: one copy of the path to the normalised type with `prepare_action_map`; neither: nothing, and returns normally |
| ConfigurationFlow.ReplaceOnlyAfterLoad | cloudshell/networking/cisco/iosxr/flows/configuration.py:44-65 | the commit-replace is issued only on the override path after a successful load, and configuration mode is entered iff the type is running, not startup, and the method is override |
| CommandModes.ExitOnPrompt | cloudshell/networking/cisco/iosxr/cli/command_modes.py:17-19 | the exit action map has exactly one key, the mode's own prompt, which sends `exit` |
| CommandModes.Definition | cloudshell/networking/cisco/iosxr/cli/command_modes.py:10-55 | exactly Config and Admin are defined by this package, each with its own prompt pattern and an exit map that answers that prompt with `exit`; Default and Enable come from elsewhere |
| CommandModes.ConfigPromptAt | cloudshell/networking/cisco/iosxr/cli/command_modes.py:11 | a search hit of the configuration prompt starts with `(` and needs at least nine characters of output from there: `(config`, `)#` |
| CommandModes.AdminPromptAt | cloudshell/networking/cisco/iosxr/cli/command_modes.py:41 | a search hit of the admin prompt starts with `(` or `s` and needs at least eight characters from there: `(admin)#` or `sysadmin#` |
| CommandModes.ConfigModeDeclares | cloudshell/networking/cisco/iosxr/cli/command_modes.py:10-37 | config mode: prompt `\(config.*\)#\s*$`, entered with `configure terminal`, left with `commit` (not `exit`), the exit map answers its prompt with `exit`, and the other three maps are given and empty |
| CommandModes.AdminModeDeclares | cloudshell/networking/cisco/iosxr/cli/command_modes.py:40-55 | admin mode: its prompt (an `(admin…)` context or a `sysadmin…` prompt, then `#`), entered with `admin`, left with `exit`, the exit map answers its prompt with `exit`, and the enter maps and exit error map are not given |
| CommandModes.ConfigPromptRecognised | cloudshell/networking/cisco/iosxr/cli/command_modes.py:11 | any output ending in `(config…)#` and white space matches the configuration prompt |
| CommandModes.AdminPromptRecognised | cloudshell/networking/cisco/iosxr/cli/command_modes.py:41 | any output ending in `(admin…)#` and white space matches the admin prompt |
| CommandModes.SysadminPromptRecognised | cloudshell/networking/cisco/iosxr/cli/command_modes.py:41 | any output ending in `sysadmin…#` and white space matches the admin prompt |
| CommandModes.PromptsNeedKeywords | cloudshell/networking/cisco/iosxr/cli/command_modes.py:11-41 | output matching the admin prompt contains `admin`, and output matching the configuration prompt contains `(config` |
| CommandModes.RelationsEdges | cloudshell/networking/cisco/iosxr/cli/command_modes.py:58-65 | flattened, the nested mode tree `RelationsDict` has exactly the parent → child links Default → Enable, Enable → Config and Enable → Admin, in that order |
| CommandModes.Parent | cloudshell/networking/cisco/iosxr/cli/command_modes.py:58-65 | a mode has a parent exactly when some link of the relations tree leads to it, and then that link is the one from its parent |
| CommandModes.Ancestors | cloudshell/networking/cisco/iosxr/cli/command_modes.py:58-65 | the modes above a mode, nearest first: the first is its parent and each next one is the parent of the one before |
| CommandModes.RelationsShape | cloudshell/networking/cisco/iosxr/cli/command_modes.py:58-65 | Default is the root and Enable its only child; Config and Admin are the children of Enable and are leaves |
| CommandModes.AncestorsOfModes | cloudshell/networking/cisco/iosxr/cli/command_modes.py:60-63 | Config and Admin both lie under Enable under Default; neither is an ancestor of the other |

## Left out

- `commit` (system.py:103-109) runs a template and checks nothing. It is not modelled.
- `SUCCESS_COPY_PATTERN` (system.py:16-18) extends a pattern of the generic Cisco package, and only that package's `copy` uses it. `copy` is not part of this model: its outcome is a parameter of `RestoreFlow`.
- `show_install_repository`, `show_install_active`, `show_install_commit` and `retrieve_install_log` only forward to the executor. They are not modelled.
- The executor (`CommandTemplateExecutor`), the expect-loop, the command templates' text, and how the `action_map` and `error_map` arguments are consulted all belong to the CLI library. The model keeps the executor's outcome as a parameter. It records which template and arguments each call uses, but not the forwarded maps.
- `UrlParser.parse_url` is a parameter returning the optional URL components. Only its file name, host name, user name and password are used.
- `time.sleep` and the reconnect timeout are recorded as trace events. Wall-clock behaviour is not modelled.
- Executor exceptions are classified only as a dropped session (`SessionException`) or anything else.
- `AdminSystemActions.InstallCommit`: only `None` and `0` count as a falsy timeout. Other falsy values such as `False` or `""` are not modelled.
- `AdminSystemActions.ShowInstallRequest`: the given polls are finite. A run that would keep polling ends as `Pending` when they run out, so polling forever is shown as a run that uses every given poll.
- Regular expressions are modelled only for the fixed patterns, with these limits:
  - `IGNORECASE` folds ASCII letters only.
  - `\d` and `[0-9]` are ASCII digits.
  - `\s` is the set `str.isspace` accepts.
  - The operation id, file names and host name interpolated into patterns are taken as literal text, although the source interpolates them unescaped.
  - The action-map prompts are kept as pattern text. How the expect-loop matches them is the CLI library's.
  - The mode prompts are matched as a flag-less `re.search` over the whole output, where `.` stops at a line break and `$` matches only at the end. Matching mode prompts is the CLI library's job, and it may apply them differently. The lemmas about the prompts are stated on that reading.
- `^([1-9][0-9]*)+` is modelled as one maximal run of digits that starts with a non-zero digit. This accepts the same strings, and since `\s*bytes` follows, no shorter run can match.
- `ConfigurationFlow.RestoreFlow`:
  - It does not record acquiring the enable-mode session, which happens before the startup check.
  - Leaving configuration mode is recorded whether or not `load` raised. What the CLI library's `with` block does on an exception is not shown.
- `vrf_management_name` is a Python `str`. It is modelled as an optional string, so that truthiness (`None` or `""`) decides whether LOAD gets it.
- `prepare_output` formats keys and values that are strings. The `str.format` of other types is not modelled.
- The Default and Enable modes are defined by the generic Cisco package and are not part of this model. They appear only as nodes of the relation tree.
- `cisco_iosxr_cli_handler.py` (mode lookups and the session-start commands) is session plumbing over the CLI library. It is not modelled.
