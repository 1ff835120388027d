/**
 * CiscoIOSXRSystemActions: the configuration actions run on an enable- or
 * config-mode session. Each action is split into the command it hands to the
 * template executor and the judgement of the executor's answer.
 */
module SystemActions {

  import opened Wrappers
  import opened Text
  import opened Cli
  import opened Patterns

  /** Python truthiness of an optional string: present and non-empty. */
  predicate Truthy(o: Option<string>)
  {
    o.Some? && o.value != ""
  }

  /** `"{}".format(o)`: `None` formats as the text `None`. */
  function Format(o: Option<string>): string
  {
    if o.Some? then o.value else "None"
  }

  // ---------------------------------------------------------------- load

  /** The LOAD command: `vrf` is passed to the executor only when it is truthy. */
  function LoadCommand(sourceFile: string, vrf: Option<string>): (c: Command)
    ensures c.template == Cli.Load && c.timeout.None?
    ensures |c.args| == (if Truthy(vrf) then 2 else 1) && c.args[0] == ("source_file", Some(sourceFile))
    ensures (exists a | a in c.args :: a.0 == "vrf") <==> Truthy(vrf)
    ensures forall a | a in c.args && a.0 == "vrf" :: a.1 == vrf
  {
    var args := [("source_file", Some(sourceFile))];
    if Truthy(vrf) then Command(Cli.Load, args + [("vrf", vrf)], None)
    else Command(Cli.Load, args, None)
  }

  const GenericLoadFailure: string := "Failed to restore configuration, please check logs"

  /** The diagnostic of a failed load: the leftmost error-pattern match, else a fixed message. */
  function LoadFailureMessage(output: string): (msg: string)
    ensures LoadErrorMatch(output).None? ==> msg == GenericLoadFailure
    ensures LoadErrorMatch(output).Some? ==> msg == "load error: " + LoadErrorMatch(output).value
  {
    match LoadErrorMatch(output)
    case Some(m) => "load error: " + m
    case None => GenericLoadFailure
  }

  /**
   * `load`'s judgement of the executor's answer: the output unchanged when it
   * reports a byte count, otherwise `Exception("validate_load_success", msg)`;
   * executor exceptions pass through.
   */
  function ValidateLoad(reply: ExecOutcome): (r: Result<string, Failure>)
    ensures reply.Failed? ==> r == Err(Propagated(reply.kind))
    ensures reply.Output? ==> (r.Ok? <==> SuccessLoad(reply.text))
    ensures r.Ok? ==> r.value == reply.text
    ensures reply.Output? && r.Err? ==>
              r.error == Raised(["validate_load_success", LoadFailureMessage(reply.text)])
  {
    match reply
    case Failed(kind) => Err(Propagated(kind))
    case Output(text) =>
      if SuccessLoad(text) then Ok(text)
      else Err(Raised(["validate_load_success", LoadFailureMessage(text)]))
  }

  /**
   * A failed load's diagnostic either is the fixed message or quotes the device's
   * output: the text found at the leftmost position the error pattern matches.
   */
  lemma LoadDiagnosticQuotesOutput(output: string)
    requires !SuccessLoad(output)
    ensures ValidateLoad(Output(output)).Err?
    ensures var msg := ValidateLoad(Output(output)).error.args[1];
            msg == GenericLoadFailure ||
            exists i, t | 0 <= i < |output| && t == LoadErrorAt(output, i) ::
              t.Some? && msg == "load error: " + t.value && MatchAt(output, i, t.value) &&
              forall j | 0 <= j < i :: LoadErrorAt(output, j).None?
  {
    var m := LoadErrorMatch(output);
    if m.Some? {
      var i :| 0 <= i < |output| && LoadErrorAt(output, i) == m && forall j | 0 <= j < i :: LoadErrorAt(output, j).None?;
      assert LoadErrorAt(output, i).Some?;
    }
  }

  /**
   * A bracketed count with no leading zero, then `bytes` (in any case) later on the
   * same line, is a successful load, whatever surrounds it.
   */
  lemma LoadAcceptsBracketedCount(pre: string, open: char, digits: string, close: char,
                                  mid: string, word: string, post: string)
    requires open == '[' || open == '('
    requires close == ')' || close == ']'
    requires |digits| > 0 && IsNonZeroDigit(digits[0])
    requires forall k | 0 <= k < |digits| :: IsDigit(digits[k])
    requires '\n' !in mid
    requires |word| == 5 && MatchAtCI(word, 0, "bytes")
    ensures var s := pre + [open] + digits + [close] + mid + word + post;
            ValidateLoad(Output(s)) == Ok(s)
  {
    var s := pre + [open] + digits + [close] + mid + word + post;
    var i := |pre|;
    var j := i + 1 + |digits|;
    var k := j + 1 + |mid|;
    assert s[i] == open && s[i + 1] == digits[0] && s[j] == close;
    assert forall t | i + 1 <= t < j :: s[t] == digits[t - i - 1];
    RunEndSpan(s, i + 2, j, IsDigit);
    assert forall t | j + 1 <= t < k :: s[t] == mid[t - j - 1];
    assert forall t | j + 1 <= t < k :: NotNewline(s[t]);
    assert LineEnd(s, j + 1) >= k;
    assert forall t | 0 <= t < 5 :: s[k + t] == word[t];
    assert MatchAtCI(s, k, "bytes");
    BracketedCountIntro(s, i, j, k);
  }

  /**
   * At the start of a line, a count with no leading zero, white space, `bytes`, white
   * space and `parsed` (each word in any case) is a successful load, whatever
   * surrounds it.
   */
  lemma LoadAcceptsParsedCount(pre: string, digits: string, gap1: string, word1: string,
                               gap2: string, word2: string, post: string)
    requires |pre| == 0 || pre[|pre| - 1] == '\n'
    requires |digits| > 0 && IsNonZeroDigit(digits[0])
    requires forall k | 0 <= k < |digits| :: IsDigit(digits[k])
    requires forall k | 0 <= k < |gap1| :: IsSpace(gap1[k])
    requires forall k | 0 <= k < |gap2| :: IsSpace(gap2[k])
    requires |word1| == 5 && MatchAtCI(word1, 0, "bytes")
    requires |word2| == 6 && MatchAtCI(word2, 0, "parsed")
    ensures var s := pre + digits + gap1 + word1 + gap2 + word2 + post;
            ValidateLoad(Output(s)) == Ok(s)
  {
    ParsedLineCounts(pre, digits, gap1, word1, gap2, word2, post);
  }

  lemma ParsedLineCounts(pre: string, digits: string, gap1: string, word1: string,
                         gap2: string, word2: string, post: string)
    requires ParsedPieces(pre, digits, gap1, word1, gap2, word2)
    ensures CountParsedAt(pre + digits + gap1 + word1 + gap2 + word2 + post, |pre|)
  {
    var s := pre + digits + gap1 + word1 + gap2 + word2 + post;
    ParsedDigits(pre, digits, gap1, word1, gap2, word2, post);
    ParsedBytes(pre, digits, gap1, word1, gap2, word2, post);
    ParsedWord(pre, digits, gap1, word1, gap2, word2, post);
    var j := |pre| + |digits|;
    CountParsedIntro(s, |pre|, j, j + |gap1|, j + |gap1| + 5 + |gap2|);
  }

  /** The pieces of a `<count> bytes parsed` line, as `LoadAcceptsParsedCount` requires them. */
  predicate ParsedPieces(pre: string, digits: string, gap1: string, word1: string, gap2: string, word2: string)
  {
    (|pre| == 0 || pre[|pre| - 1] == '\n') &&
    |digits| > 0 && IsNonZeroDigit(digits[0]) &&
    (forall k | 0 <= k < |digits| :: IsDigit(digits[k])) &&
    (forall k | 0 <= k < |gap1| :: IsSpace(gap1[k])) &&
    (forall k | 0 <= k < |gap2| :: IsSpace(gap2[k])) &&
    |word1| == 5 && MatchAtCI(word1, 0, "bytes") &&
    |word2| == 6 && MatchAtCI(word2, 0, "parsed")
  }

  lemma ParsedDigits(pre: string, digits: string, gap1: string, word1: string,
                     gap2: string, word2: string, post: string)
    requires ParsedPieces(pre, digits, gap1, word1, gap2, word2)
    ensures var s := pre + digits + gap1 + word1 + gap2 + word2 + post;
            var i := |pre|;
            i < |s| && LineStart(s, i) && IsNonZeroDigit(s[i]) &&
            RunEnd(s, i + 1, IsDigit) == i + |digits|
  {
    var s := pre + digits + gap1 + word1 + gap2 + word2 + post;
    var i, j := |pre|, |pre| + |digits|;
    assert LineStart(s, i) by {
      if i > 0 { assert s[i - 1] == pre[|pre| - 1]; }
    }
    assert forall t | i <= t < j :: s[t] == digits[t - i];
    assert !IsDigit(s[j]) by {
      if |gap1| > 0 {
        assert s[j] == gap1[0] && IsSpace(gap1[0]);
      } else {
        assert s[j] == word1[0] && Lower(word1[0]) == Lower("bytes"[0]);
      }
    }
    RunEndSpan(s, i + 1, j, IsDigit);
  }

  lemma ParsedBytes(pre: string, digits: string, gap1: string, word1: string,
                    gap2: string, word2: string, post: string)
    requires ParsedPieces(pre, digits, gap1, word1, gap2, word2)
    ensures var s := pre + digits + gap1 + word1 + gap2 + word2 + post;
            var j := |pre| + |digits|;
            RunEnd(s, j, IsSpace) == j + |gap1| && MatchAtCI(s, j + |gap1|, "bytes")
  {
    var s := pre + digits + gap1 + word1 + gap2 + word2 + post;
    var j := |pre| + |digits|;
    var k := j + |gap1|;
    assert forall t | j <= t < k :: s[t] == gap1[t - j];
    assert forall t | 0 <= t < 5 :: s[k + t] == word1[t];
    assert s[k] == word1[0] && Lower(word1[0]) == Lower("bytes"[0]);
    RunEndSpan(s, j, k, IsSpace);
  }

  lemma ParsedWord(pre: string, digits: string, gap1: string, word1: string,
                   gap2: string, word2: string, post: string)
    requires ParsedPieces(pre, digits, gap1, word1, gap2, word2)
    ensures var s := pre + digits + gap1 + word1 + gap2 + word2 + post;
            var k := |pre| + |digits| + |gap1|;
            k + 5 <= |s| && RunEnd(s, k + 5, IsSpace) == k + 5 + |gap2| &&
            MatchAtCI(s, k + 5 + |gap2|, "parsed")
  {
    var s := pre + digits + gap1 + word1 + gap2 + word2 + post;
    var k := |pre| + |digits| + |gap1|;
    var m := k + 5 + |gap2|;
    assert forall t | k + 5 <= t < m :: s[t] == gap2[t - k - 5];
    assert forall t | 0 <= t < 6 :: s[m + t] == word2[t];
    assert s[m] == word2[0] && Lower(word2[0]) == Lower("parsed"[0]);
    RunEndSpan(s, k + 5, m, IsSpace);
  }

  /** Output holding no bracket and no non-zero digit cannot report a successful load. */
  lemma NoCountWithoutDigits(s: string)
    requires forall i | 0 <= i < |s| :: s[i] != '[' && s[i] != '(' && !IsNonZeroDigit(s[i])
    ensures !SuccessLoad(s)
  {
  }

  /**
   * A one-line `%` banner that reports no count fails the load, and the whole banner
   * is quoted in the diagnostic.
   */
  lemma LoadQuotesPercentBanner(banner: string)
    requires |banner| > 0 && banner[0] == '%' && '\n' !in banner
    requires !SuccessLoad(banner)
    ensures ValidateLoad(Output(banner)) ==
            Err(Raised(["validate_load_success", "load error: " + banner]))
  {
    var s := banner;
    RunEndSpan(s, 1, |s|, NotNewline);
    assert !MatchAtCI(s, 0, CantAssign) by {
      assert Lower(s[0]) != Lower(CantAssign[0]);
    }
    assert !MatchAtCI(s, 0, "error:") by {
      assert Lower(s[0]) != Lower("error:"[0]);
    }
    assert s[0..|s|] == s;
    assert LoadErrorAt(s, 0) == Some(s);
    assert FirstMatch((i: nat) => LoadErrorAt(s, i), 0, |s|) == Some(0);
  }

  // ---------------------------------------------------------------- replace_config

  function CommitReplaceCommand(): (c: Command)
    ensures c.template == Cli.CommitReplace && c.args == [] && c.timeout.None?
  {
    Command(Cli.CommitReplace, [], None)
  }

  /**
   * `replace_config`'s judgement: the output unchanged, unless an error line is
   * found, which fails with `"load error: "` and that line.
   */
  function ValidateReplace(reply: ExecOutcome): (r: Result<string, Failure>)
    ensures reply.Failed? ==> r == Err(Propagated(reply.kind))
    ensures reply.Output? ==> (r.Err? <==> ReplaceErrorMatch(reply.text).Some?)
    ensures r.Ok? ==> r.value == reply.text
    ensures reply.Output? && r.Err? ==>
              r.error == Raised(["validate_replace_config_success", "load error: " + ReplaceErrorMatch(reply.text).value])
  {
    match reply
    case Failed(kind) => Err(Propagated(kind))
    case Output(text) =>
      match ReplaceErrorMatch(text)
      case Some(line) => Err(Raised(["validate_replace_config_success", "load error: " + line]))
      case None => Ok(text)
  }

  /**
   * The commit-replace fails exactly when `ERROR`, `Error` or `error` occurs with a
   * line break somewhere after it: the keyword on a newline-terminated line.
   */
  lemma ReplaceFailsIffErrorLine(output: string)
    ensures ValidateReplace(Output(output)).Err? <==>
            exists i | 0 <= i < |output| :: ErrorKeywordAt(output, i) && exists j | i + 5 <= j < |output| :: output[j] == '\n'
  {
    if exists i | 0 <= i < |output| :: ErrorKeywordAt(output, i) && exists j | i + 5 <= j < |output| :: output[j] == '\n' {
      var i :| 0 <= i < |output| && ErrorKeywordAt(output, i) && exists j | i + 5 <= j < |output| :: output[j] == '\n';
      assert ReplaceErrorAt(output, i).Some?;
    }
  }

  /**
   * The diagnostic of a failed commit-replace quotes one line of the output, from
   * the error keyword to its line break, the first such in the output.
   */
  lemma ReplaceDiagnosticIsErrorLine(output: string)
    requires ValidateReplace(Output(output)).Err?
    ensures var line := ReplaceErrorMatch(output).value;
            ValidateReplace(Output(output)).error.args[1] == "load error: " + line &&
            ErrorKeywordAt(line, 0) && line[|line| - 1] == '\n' && '\n' !in line[..|line| - 1] &&
            exists i | 0 <= i < |output| :: MatchAt(output, i, line) && forall j | 0 <= j < i :: ReplaceErrorAt(output, j).None?
  {
    var r := ReplaceErrorMatch(output);
    var i :| 0 <= i < |output| && ReplaceErrorAt(output, i) == r && forall j | 0 <= j < i :: ReplaceErrorAt(output, j).None?;
  }

  // ---------------------------------------------------------------- prepare_action_map

  /** The components `UrlParser.parse_url` yields; the parser itself is a parameter. */
  datatype UrlParts = UrlParts(filename: Option<string>, hostname: Option<string>,
                               username: Option<string>, password: Option<string>)

  /** The prompt naming the destination file, anywhere inside brackets. */
  function DestinationPrompt(fileName: Option<string>): string
  {
    @"[\[\(].*" + Format(fileName) + @"[\)\]]"
  }

  /** The prompt naming the source file, alone inside brackets. */
  function SourcePrompt(fileName: Option<string>): string
  {
    @"[\[\(]" + Format(fileName) + @"[\)\]]"
  }

  const UsernamePrompt: string := "[Uu]ser(name)?"

  const PasswordPrompt: string := "[Pp]assword"

  function HostPrompt(host: string): string
  {
    "(?!/)" + host + @"(?!/)\D*\s*$"
  }

  /**
   * The assignments `prepare_action_map` makes, in order: the two file-name prompts,
   * then username, password and host when the destination URL has them. Credentials
   * and host come from the destination URL; the source contributes its file name only.
   */
  function Candidates(parse: string -> UrlParts, sourceFile: string, destinationFile: string): ActionMap
  {
    var url := parse(destinationFile);
    FileNameEntries(url.filename, parse(sourceFile).filename) + UsernameEntry(url) + PasswordEntry(url) + HostEntry(url)
  }

  function FileNameEntries(dstFileName: Option<string>, sourceFileName: Option<string>): ActionMap
  {
    [(DestinationPrompt(dstFileName), SendLine("")), (SourcePrompt(sourceFileName), SendLine(""))]
  }

  function UsernameEntry(url: UrlParts): ActionMap
  {
    if Truthy(url.username) then [(UsernamePrompt, SendLine(url.username.value))] else []
  }

  function PasswordEntry(url: UrlParts): ActionMap
  {
    if Truthy(url.password) then [(PasswordPrompt, SendLine(url.password.value))] else []
  }

  function HostEntry(url: UrlParts): ActionMap
  {
    if Truthy(url.hostname) then [(HostPrompt(url.hostname.value), SendLine(""))] else []
  }

  /** The `OrderedDict` that `prepare_action_map` returns. */
  function ActionMapFor(parse: string -> UrlParts, sourceFile: string, destinationFile: string): (m: ActionMap)
    ensures Keys(m) == Dedup(Keys(Candidates(parse, sourceFile, destinationFile)))
    ensures forall k :: Lookup(m, k) == LastValue(Candidates(parse, sourceFile, destinationFile), k)
  {
    AssignIsOrderedDict(Candidates(parse, sourceFile, destinationFile));
    Assign([], Candidates(parse, sourceFile, destinationFile))
  }

  /** `prepare_action_map`, by successive assignments into an empty ordered dictionary. */
  method PrepareActionMap(parse: string -> UrlParts, sourceFile: string, destinationFile: string)
    returns (actionMap: ActionMap)
    ensures actionMap == ActionMapFor(parse, sourceFile, destinationFile)
  {
    actionMap := [];
    var url := parse(destinationFile);
    var dstFileName := url.filename;
    var sourceFileName := parse(sourceFile).filename;
    actionMap := Insert(actionMap, DestinationPrompt(dstFileName), SendLine(""));
    actionMap := Insert(actionMap, SourcePrompt(sourceFileName), SendLine(""));
    ghost var done := FileNameEntries(dstFileName, sourceFileName);
    AssignPair(DestinationPrompt(dstFileName), SendLine(""), SourcePrompt(sourceFileName), SendLine(""));
    assert actionMap == Assign([], done);

    var host, password, username := url.hostname, url.password, url.username;
    if Truthy(username) {
      actionMap := Insert(actionMap, UsernamePrompt, SendLine(username.value));
    }
    AssignMaybe(done, Truthy(username), UsernamePrompt, if Truthy(username) then SendLine(username.value) else SendLine(""));
    done := done + UsernameEntry(url);
    if Truthy(password) {
      actionMap := Insert(actionMap, PasswordPrompt, SendLine(password.value));
    }
    AssignMaybe(done, Truthy(password), PasswordPrompt, if Truthy(password) then SendLine(password.value) else SendLine(""));
    done := done + PasswordEntry(url);
    if Truthy(host) {
      actionMap := Insert(actionMap, HostPrompt(host.value), SendLine(""));
    }
    AssignMaybe(done, Truthy(host), if Truthy(host) then HostPrompt(host.value) else "", SendLine(""));
    done := done + HostEntry(url);
  }

  lemma AssignPair<V>(k1: string, v1: V, k2: string, v2: V)
    ensures Assign([], [(k1, v1), (k2, v2)]) == Insert(Insert([], k1, v1), k2, v2)
  {
    AssignSnoc([], [], k1, v1);
    AssignSnoc([], [(k1, v1)], k2, v2);
  }

  /** One conditional assignment, as the optional credentials and host are made. */
  lemma AssignMaybe<V>(done: seq<(string, V)>, cond: bool, k: string, v: V)
    ensures Assign([], done + (if cond then [(k, v)] else [])) ==
            if cond then Insert(Assign([], done), k, v) else Assign([], done)
  {
    if cond {
      AssignSnoc([], done, k, v);
    } else {
      assert done + [] == done;
    }
  }

  /**
   * The destination and source file-name prompts coincide exactly when the source
   * file name is `.*` followed by the destination file name; then the second
   * assignment overwrites the first entry instead of adding one.
   */
  lemma FileNamePromptsCollide(dstFileName: Option<string>, sourceFileName: Option<string>)
    ensures DestinationPrompt(dstFileName) == SourcePrompt(sourceFileName) <==>
            Format(sourceFileName) == ".*" + Format(dstFileName)
  {
    var open, close := @"[\[\(]", @"[\)\]]";
    var a, b := Format(dstFileName), Format(sourceFileName);
    assert DestinationPrompt(dstFileName) == open + (".*" + a) + close;
    assert SourcePrompt(sourceFileName) == open + b + close;
    if open + (".*" + a) + close == open + b + close {
      var n := |open + b + close|;
      assert |b| == |".*" + a|;
      assert (open + b + close)[|open|..n - |close|] == b;
      assert (open + (".*" + a) + close)[|open|..n - |close|] == ".*" + a;
    }
  }

  /** The fixed prompts and the host prompt differ from each other and from both file-name prompts. */
  lemma PromptsDiffer(dstFileName: Option<string>, sourceFileName: Option<string>, host: string)
    ensures UsernamePrompt != PasswordPrompt
    ensures UsernamePrompt != DestinationPrompt(dstFileName) && UsernamePrompt != SourcePrompt(sourceFileName)
    ensures PasswordPrompt != DestinationPrompt(dstFileName) && PasswordPrompt != SourcePrompt(sourceFileName)
    ensures HostPrompt(host) != DestinationPrompt(dstFileName) && HostPrompt(host) != SourcePrompt(sourceFileName)
    ensures HostPrompt(host) != UsernamePrompt && HostPrompt(host) != PasswordPrompt
  {
    assert UsernamePrompt[1] == 'U' && PasswordPrompt[1] == 'P';
    assert DestinationPrompt(dstFileName)[1] == '\\' && SourcePrompt(sourceFileName)[1] == '\\';
    assert HostPrompt(host)[0] == '(' && UsernamePrompt[0] == '[' && PasswordPrompt[0] == '[';
    assert DestinationPrompt(dstFileName)[0] == '[' && SourcePrompt(sourceFileName)[0] == '[';
  }

  /**
   * Unless the two file-name prompts collide, every assignment adds its own entry:
   * the map holds the destination prompt, the source prompt, then the username,
   * password and host prompts of the destination URL, each only when present.
   */
  lemma ActionMapOrder(parse: string -> UrlParts, sourceFile: string, destinationFile: string)
    requires Format(parse(sourceFile).filename) != ".*" + Format(parse(destinationFile).filename)
    ensures var url := parse(destinationFile);
            Keys(ActionMapFor(parse, sourceFile, destinationFile)) ==
              [DestinationPrompt(url.filename), SourcePrompt(parse(sourceFile).filename)] +
              (if Truthy(url.username) then [UsernamePrompt] else []) +
              (if Truthy(url.password) then [PasswordPrompt] else []) +
              (if Truthy(url.hostname) then [HostPrompt(url.hostname.value)] else [])
    ensures ActionMapFor(parse, sourceFile, destinationFile) == Candidates(parse, sourceFile, destinationFile)
  {
    var url := parse(destinationFile);
    var c := Candidates(parse, sourceFile, destinationFile);
    var d, src := DestinationPrompt(url.filename), SourcePrompt(parse(sourceFile).filename);
    var h := if url.hostname.Some? then url.hostname.value else "";
    var us := if Truthy(url.username) then [UsernamePrompt] else [];
    var ps := if Truthy(url.password) then [PasswordPrompt] else [];
    var hs := if Truthy(url.hostname) then [HostPrompt(h)] else [];
    FileNamePromptsCollide(url.filename, parse(sourceFile).filename);
    PromptsDiffer(url.filename, parse(sourceFile).filename, h);
    CandidateKeys(parse, sourceFile, destinationFile);
    DistinctFive(d, src, us, ps, hs);
    AssignDistinct(c);
  }

  /** The keys of the candidate assignments, in order. */
  lemma CandidateKeys(parse: string -> UrlParts, sourceFile: string, destinationFile: string)
    ensures var url := parse(destinationFile);
            Keys(Candidates(parse, sourceFile, destinationFile)) ==
              [DestinationPrompt(url.filename), SourcePrompt(parse(sourceFile).filename)] +
              (if Truthy(url.username) then [UsernamePrompt] else []) +
              (if Truthy(url.password) then [PasswordPrompt] else []) +
              (if Truthy(url.hostname) then [HostPrompt(url.hostname.value)] else [])
  {
    var url := parse(destinationFile);
    var f := FileNameEntries(url.filename, parse(sourceFile).filename);
    KeysConcat(f, UsernameEntry(url));
    KeysConcat(f + UsernameEntry(url), PasswordEntry(url));
    KeysConcat(f + UsernameEntry(url) + PasswordEntry(url), HostEntry(url));
  }

  /**
   * What each entry sends: the username and password prompts send the destination
   * URL's credentials (and are absent without them); the file-name and host prompts,
   * and every other entry, send an empty line. Nothing is taken from the source URL
   * except its file name.
   */
  lemma ActionMapReplies(parse: string -> UrlParts, sourceFile: string, destinationFile: string)
    ensures var m := ActionMapFor(parse, sourceFile, destinationFile);
            var url := parse(destinationFile);
            Lookup(m, UsernamePrompt) == (if Truthy(url.username) then Some(SendLine(url.username.value)) else None) &&
            Lookup(m, PasswordPrompt) == (if Truthy(url.password) then Some(SendLine(url.password.value)) else None) &&
            Lookup(m, DestinationPrompt(url.filename)) == Some(SendLine("")) &&
            Lookup(m, SourcePrompt(parse(sourceFile).filename)) == Some(SendLine("")) &&
            (Truthy(url.hostname) ==> Lookup(m, HostPrompt(url.hostname.value)) == Some(SendLine(""))) &&
            forall k | k != UsernamePrompt && k != PasswordPrompt && Lookup(m, k).Some? :: Lookup(m, k) == Some(SendLine(""))
  {
    var url := parse(destinationFile);
    var c := Candidates(parse, sourceFile, destinationFile);
    var f := FileNameEntries(url.filename, parse(sourceFile).filename);
    var h := if url.hostname.Some? then url.hostname.value else "";
    var u, pw, hs := UsernameEntry(url), PasswordEntry(url), HostEntry(url);
    PromptsDiffer(url.filename, parse(sourceFile).filename, h);
    assert c == f + u + pw + hs;
    LastValueConcat(f + u + pw, hs, UsernamePrompt);
    LastValueConcat(f + u, pw, UsernamePrompt);
    LastValueConcat(f, u, UsernamePrompt);
    LastValueConcat(f + u + pw, hs, PasswordPrompt);
    LastValueConcat(f + u, pw, PasswordPrompt);
    LastValueConcat(f, u, PasswordPrompt);
    forall k | k != UsernamePrompt && k != PasswordPrompt && LastValue(c, k).Some?
      ensures LastValue(c, k) == Some(SendLine(""))
    {
      LastValueIsAssigned(c, k);
      var e := (k, LastValue(c, k).value);
      assert e in f || e in u || e in pw || e in hs;
    }
    LastValueConcat(f + u + pw, hs, DestinationPrompt(url.filename));
    LastValueConcat(f + u, pw, DestinationPrompt(url.filename));
    LastValueConcat(f, u, DestinationPrompt(url.filename));
    LastValueConcat(f + u + pw, hs, SourcePrompt(parse(sourceFile).filename));
    LastValueConcat(f + u, pw, SourcePrompt(parse(sourceFile).filename));
    LastValueConcat(f, u, SourcePrompt(parse(sourceFile).filename));
  }

  lemma DistinctFive(d: string, src: string, us: seq<string>, ps: seq<string>, hs: seq<string>)
    requires |us| <= 1 && |ps| <= 1 && |hs| <= 1
    requires d != src
    requires forall x | x in us + ps + hs :: x != d && x != src
    requires forall x, y | x in us && y in ps :: x != y
    requires forall x, y | x in us + ps && y in hs :: x != y
    ensures Distinct([d, src] + us + ps + hs)
  {
    var t := us + ps + hs;
    if |us| == 1 && |ps| == 1 {
      assert us[0] in us && ps[0] in ps && us[0] in us + ps && ps[0] in us + ps;
      assert us[0] != ps[0];
    }
    if |us| == 1 && |hs| == 1 {
      assert us[0] in us + ps && hs[0] in hs;
    }
    if |ps| == 1 && |hs| == 1 {
      assert ps[0] in us + ps && hs[0] in hs;
    }
    assert Distinct(t);
    var ks := [d, src] + t;
    forall i, j | 0 <= i < j < |ks| ensures ks[i] != ks[j] {
      if 2 <= i {
        assert ks[i] == t[i - 2] && ks[j] == t[j - 2];
      } else if 2 <= j {
        assert ks[j] == t[j - 2] && t[j - 2] in t;
      }
    }
    assert ks == [d, src] + us + ps + hs;
  }
}
