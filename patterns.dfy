/**
 * The fixed regular expressions of the device actions, each written out as a
 * predicate (or, where the matched text is used, as a function giving the
 * leftmost match) on the output string.
 */
module Patterns {

  import opened Wrappers
  import opened Text

  /**
   * The first position in `[i, n)` at which `f` reports a match: the leftmost
   * match `re.search` finds.
   */
  function FirstMatch(f: nat -> Option<string>, i: nat, n: nat): (r: Option<nat>)
    ensures r.Some? ==> i <= r.value < n && f(r.value).Some?
    ensures r.Some? ==> forall j | i <= j < r.value :: f(j).None?
    ensures r.None? ==> forall j | i <= j < n :: f(j).None?
    decreases n - i
  {
    if n <= i then None
    else if f(i).Some? then Some(i)
    else FirstMatch(f, i + 1, n)
  }

  // ----- load success: [\[\(][1-9][0-9]*[\)\]].*bytes|^([1-9][0-9]*)+\s*bytes\s*(parsed|process+ed)
  //       searched with IGNORECASE and MULTILINE

  /**
   * First alternative at `i`: a bracketed count with no leading zero, then `bytes`
   * further on the same line. The digit run before the closing bracket is maximal,
   * since a bracket is not a digit.
   */
  predicate BracketedCountAt(s: string, i: nat)
  {
    i + 1 < |s| && (s[i] == '[' || s[i] == '(') && IsNonZeroDigit(s[i + 1]) &&
    var j := RunEnd(s, i + 2, IsDigit);
    j < |s| && (s[j] == ')' || s[j] == ']') &&
    exists k | j + 1 <= k <= LineEnd(s, j + 1) :: MatchAtCI(s, k, "bytes")
  }

  predicate IsLetterS(c: char) { Lower(c) == 's' }

  /** `process+ed` at `m`: `proces`, one or more `s`, then `ed`. */
  predicate ProcessedAt(s: string, m: nat)
  {
    MatchAtCI(s, m, "proces") &&
    var n := RunEnd(s, m + 6, IsLetterS);
    m + 6 < n && MatchAtCI(s, n, "ed")
  }

  /**
   * Second alternative at `i`: at the start of a line, a count with no leading zero,
   * optional white space, `bytes`, optional white space, then `parsed` or
   * `process+ed`. Each run is maximal because the character after it cannot
   * continue the run.
   */
  predicate CountParsedAt(s: string, i: nat)
  {
    i < |s| && LineStart(s, i) && IsNonZeroDigit(s[i]) &&
    var j := RunEnd(s, i + 1, IsDigit);
    var k := RunEnd(s, j, IsSpace);
    MatchAtCI(s, k, "bytes") &&
    var m := RunEnd(s, k + 5, IsSpace);
    MatchAtCI(s, m, "parsed") || ProcessedAt(s, m)
  }

  /** The first alternative, from where its digit run ends and where `bytes` starts. */
  lemma BracketedCountIntro(s: string, i: nat, j: nat, k: nat)
    requires i + 1 < |s| && (s[i] == '[' || s[i] == '(') && IsNonZeroDigit(s[i + 1])
    requires i + 2 <= |s| && RunEnd(s, i + 2, IsDigit) == j
    requires j < |s| && (s[j] == ')' || s[j] == ']')
    requires j + 1 <= k <= LineEnd(s, j + 1) && MatchAtCI(s, k, "bytes")
    ensures BracketedCountAt(s, i)
  {
  }

  /** The second alternative with `parsed`, from where each of its runs ends. */
  lemma CountParsedIntro(s: string, i: nat, j: nat, k: nat, m: nat)
    requires i < |s| && LineStart(s, i) && IsNonZeroDigit(s[i])
    requires RunEnd(s, i + 1, IsDigit) == j && RunEnd(s, j, IsSpace) == k
    requires MatchAtCI(s, k, "bytes")
    requires k + 5 <= |s| && RunEnd(s, k + 5, IsSpace) == m
    requires MatchAtCI(s, m, "parsed")
    ensures CountParsedAt(s, i)
  {
  }

  /** The load-success pattern matches somewhere in `s`. */
  predicate SuccessLoad(s: string)
    ensures SuccessLoad(s) ==> |s| >= 8
  {
    exists i | 0 <= i < |s| :: BracketedCountAt(s, i) || CountParsedAt(s, i)
  }

  // ----- load error:  Can't assign requested address|[Ee]rror:.*\n|%.*$   (IGNORECASE, MULTILINE)

  const CantAssign: string := " Can't assign requested address"

  /**
   * The text the load-error pattern matches at `i`, if it matches there. The three
   * alternatives start with different characters, so at most one applies.
   */
  function LoadErrorAt(s: string, i: nat): (r: Option<string>)
    ensures r.Some? ==> MatchAt(s, i, r.value) && |r.value| > 0
  {
    if MatchAtCI(s, i, CantAssign) then Some(s[i..i + |CantAssign|])
    else if MatchAtCI(s, i, "error:") && LineEnd(s, i + 6) < |s| then Some(s[i..LineEnd(s, i + 6) + 1])
    else if i < |s| && s[i] == '%' then Some(s[i..LineEnd(s, i + 1)])
    else None
  }

  /** `re.search(load-error pattern, s).group()`, or `None` when nothing matches. */
  function LoadErrorMatch(s: string): (r: Option<string>)
    ensures r.None? <==> forall i | 0 <= i < |s| :: LoadErrorAt(s, i).None?
    ensures r.Some? ==> exists i | 0 <= i < |s| :: LoadErrorAt(s, i) == r && forall j | 0 <= j < i :: LoadErrorAt(s, j).None?
  {
    var f := (i: nat) => LoadErrorAt(s, i);
    var p := FirstMatch(f, 0, |s|);
    assert forall j | 0 <= j < |s| :: f(j) == LoadErrorAt(s, j);
    if p.Some? then LoadErrorAt(s, p.value) else None
  }

  // ----- replace error: (ERROR|[Ee]rror).*\n   (no flags)

  predicate ErrorKeywordAt(s: string, i: nat)
  {
    MatchAt(s, i, "ERROR") || MatchAt(s, i, "Error") || MatchAt(s, i, "error")
  }

  /**
   * The text the replace-error pattern matches at `i`: the keyword to the end of its
   * line, line break included. Without a line break after the keyword `.*\n` fails.
   */
  function ReplaceErrorAt(s: string, i: nat): (r: Option<string>)
    ensures r.Some? <==> ErrorKeywordAt(s, i) && exists j | i + 5 <= j < |s| :: s[j] == '\n'
    ensures r.Some? ==> MatchAt(s, i, r.value) && |r.value| > 5 && ErrorKeywordAt(r.value, 0)
    ensures r.Some? ==> r.value[|r.value| - 1] == '\n' && '\n' !in r.value[..|r.value| - 1]
  {
    if ErrorKeywordAt(s, i) && LineEnd(s, i + 5) < |s| then
      var e := LineEnd(s, i + 5);
      var line := s[i..e + 1];
      assert line[..5] == s[i..i + 5];
      assert forall k | 5 <= k < |line| - 1 :: line[k] == s[i + k] && NotNewline(s[i + k]);
      assert forall k | 0 <= k < 5 :: line[k] == s[i..i + 5][k];
      Some(line)
    else
      None
  }

  /** `re.search(replace-error pattern, s).group()`, or `None`. */
  function ReplaceErrorMatch(s: string): (r: Option<string>)
    ensures r.None? <==> forall i | 0 <= i < |s| :: ReplaceErrorAt(s, i).None?
    ensures r.Some? ==> exists i | 0 <= i < |s| :: ReplaceErrorAt(s, i) == r && forall j | 0 <= j < i :: ReplaceErrorAt(s, j).None?
  {
    var f := (i: nat) => ReplaceErrorAt(s, i);
    var p := FirstMatch(f, 0, |s|);
    assert forall j | 0 <= j < |s| :: f(j) == ReplaceErrorAt(s, j);
    if p.Some? then ReplaceErrorAt(s, p.value) else None
  }

  // ----- install progress: operation <id> is \d+% complete   (IGNORECASE; the id taken literally)

  function ProgressPrefix(operationId: string): string
  {
    "operation " + operationId + " is "
  }

  predicate InProgressAt(operationId: string, s: string, i: nat)
  {
    var p := ProgressPrefix(operationId);
    MatchAtCI(s, i, p) &&
    var j := i + |p|;
    j < |s| && IsDigit(s[j]) && MatchAtCI(s, RunEnd(s, j, IsDigit), "% complete")
  }

  /** The device reports operation `operationId` as a percentage done. */
  predicate InProgress(operationId: string, s: string)
    ensures InProgress(operationId, s) ==> |s| >= |operationId| + 25
  {
    exists i | 0 <= i < |s| :: InProgressAt(operationId, s, i)
  }

  // ----- no operation: No install operation in progress   (IGNORECASE)

  const NoOperation: string := "No install operation in progress"

  /** The device reports that no install operation is running. */
  predicate NoOp(s: string)
    ensures NoOp(s) ==> |s| >= |NoOperation|
  {
    exists i | 0 <= i < |s| :: MatchAtCI(s, i, NoOperation)
  }
}
