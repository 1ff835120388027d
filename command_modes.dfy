/**
 * The IOS-XR command modes: the configuration and admin modes (their prompts,
 * the commands that enter and leave them, and the maps consulted while doing so)
 * and the tree of modes the session navigates.
 */
module CommandModes {

  import opened Wrappers
  import opened Text
  import opened Cli

  /** The modes of the relation tree; Default and Enable are defined by the generic Cisco package. */
  datatype Mode = Default | Enable | Config | Admin

  /**
   * What a mode declares to the CLI library. An action or error map that is `None`
   * is not given, so the library's default applies; `Some([])` is an explicitly
   * empty map.
   */
  datatype ModeDefinition = ModeDefinition(
    prompt: string,
    enterCommand: string,
    exitCommand: string,
    enterActionMap: Option<ActionMap>,
    exitActionMap: Option<ActionMap>,
    enterErrorMap: Option<ErrorMap>,
    exitErrorMap: Option<ErrorMap>)

  const ConfigPrompt: string := @"\(config.*\)#\s*$"

  const AdminPrompt: string := @"(\(admin.*\)|sysadmin.*)#\s*$"

  /** The map that answers the mode's own prompt with `exit`. */
  function ExitOnPrompt(prompt: string): (m: ActionMap)
    ensures Keys(m) == [prompt] && Lookup(m, prompt) == Some(SendLine("exit"))
  {
    [(prompt, SendLine("exit"))]
  }

  /** The definitions this package gives; Default and Enable come from the generic Cisco package. */
  function Definition(m: Mode): (d: Option<ModeDefinition>)
    ensures d.Some? <==> m == Config || m == Admin
    ensures d.Some? ==> d.value.prompt == (if m == Config then ConfigPrompt else AdminPrompt)
    ensures d.Some? ==> d.value.exitActionMap == Some(ExitOnPrompt(d.value.prompt))
  {
    match m
    case Config =>
      Some(ModeDefinition(ConfigPrompt, "configure terminal", "commit",
                          Some([]), Some(ExitOnPrompt(ConfigPrompt)), Some([]), Some([])))
    case Admin =>
      Some(ModeDefinition(AdminPrompt, "admin", "exit",
                          None, Some(ExitOnPrompt(AdminPrompt)), None, None))
    case _ => None
  }

  /**
   * Configuration mode is entered with `configure terminal` and left with `commit`,
   * which commits the pending changes; should the device still show the
   * configuration prompt afterwards, the exit map sends `exit`. Its other maps are
   * given, and empty.
   */
  lemma ConfigModeDeclares()
    ensures var d := Definition(Config).value;
            d.prompt == ConfigPrompt && d.enterCommand == "configure terminal" &&
            d.exitCommand == "commit" && d.exitCommand != "exit" &&
            d.exitActionMap.Some? && Keys(d.exitActionMap.value) == [d.prompt] &&
            Lookup(d.exitActionMap.value, d.prompt) == Some(SendLine("exit")) &&
            d.enterActionMap == Some([]) && d.enterErrorMap == Some([]) && d.exitErrorMap == Some([])
  {
  }

  /**
   * Admin mode is entered with `admin` and left with `exit`, and its exit map answers
   * its own prompt with `exit`; it gives no enter maps and no exit error map.
   */
  lemma AdminModeDeclares()
    ensures var d := Definition(Admin).value;
            d.prompt == AdminPrompt && d.enterCommand == "admin" && d.exitCommand == "exit" &&
            d.exitActionMap.Some? && Keys(d.exitActionMap.value) == [d.prompt] &&
            Lookup(d.exitActionMap.value, d.prompt) == Some(SendLine("exit")) &&
            d.enterActionMap.None? && d.enterErrorMap.None? && d.exitErrorMap.None?
  {
  }

  // ---------------------------------------------------------------- prompts

  /** `s[from..]` is all white space: where `\s*$` can end the match. */
  predicate SpaceToEnd(s: string, from: nat)
  {
    forall k | from <= k < |s| :: IsSpace(s[k])
  }

  /**
   * `re.search` of the configuration prompt at `i`: `(config`, a run without line
   * breaks, `)#`, then only white space to the end of the output.
   */
  predicate ConfigPromptAt(s: string, i: nat)
    ensures ConfigPromptAt(s, i) ==> i + 9 <= |s| && s[i] == '('
  {
    MatchAt(s, i, "(config") &&
    exists j | i + 7 <= j && j + 1 < |s| ::
      MatchAt(s, j, ")#") && SpaceToEnd(s, j + 2) &&
      forall k | i + 7 <= k < j :: NotNewline(s[k])
  }

  predicate ConfigPromptMatch(s: string)
  {
    exists i | 0 <= i < |s| :: ConfigPromptAt(s, i)
  }

  /**
   * `re.search` of the admin prompt at `i`: either `(admin`, a run without line
   * breaks and `)`, or `sysadmin` and a run without line breaks; then `#` and only
   * white space to the end.
   */
  predicate AdminPromptAt(s: string, i: nat)
    ensures AdminPromptAt(s, i) ==> i + 8 <= |s| && (s[i] == '(' || s[i] == 's')
  {
    (MatchAt(s, i, "(admin") &&
     exists j | i + 6 <= j && j + 1 < |s| ::
       MatchAt(s, j, ")#") && SpaceToEnd(s, j + 2) &&
       forall k | i + 6 <= k < j :: NotNewline(s[k])) ||
    (MatchAt(s, i, "sysadmin") &&
     exists j | i + 8 <= j < |s| ::
       s[j] == '#' && SpaceToEnd(s, j + 1) &&
       forall k | i + 8 <= k < j :: NotNewline(s[k]))
  }

  predicate AdminPromptMatch(s: string)
  {
    exists i | 0 <= i < |s| :: AdminPromptAt(s, i)
  }

  /** A device prompt ending in `(config...)#` is recognised as configuration mode. */
  lemma ConfigPromptRecognised(host: string, context: string, trail: string)
    requires '\n' !in context
    requires forall k | 0 <= k < |trail| :: IsSpace(trail[k])
    ensures ConfigPromptMatch(host + "(config" + context + ")#" + trail)
  {
    var s := host + "(config" + context + ")#" + trail;
    var i, j := |host|, |host| + 7 + |context|;
    assert s[i..i + 7] == "(config";
    assert s[j..j + 2] == ")#";
    assert forall k | j + 2 <= k < |s| :: s[k] == trail[k - j - 2];
    assert forall k | i + 7 <= k < j :: s[k] == context[k - i - 7] && NotNewline(s[k]);
    assert MatchAt(s, j, ")#") && SpaceToEnd(s, j + 2);
    assert ConfigPromptAt(s, i);
  }

  /** A device prompt ending in `(admin...)#` is recognised as admin mode. */
  lemma AdminPromptRecognised(host: string, context: string, trail: string)
    requires '\n' !in context
    requires forall k | 0 <= k < |trail| :: IsSpace(trail[k])
    ensures AdminPromptMatch(host + "(admin" + context + ")#" + trail)
  {
    var s := host + "(admin" + context + ")#" + trail;
    var i, j := |host|, |host| + 6 + |context|;
    assert s[i..i + 6] == "(admin";
    assert s[j..j + 2] == ")#";
    assert forall k | j + 2 <= k < |s| :: s[k] == trail[k - j - 2];
    assert forall k | i + 6 <= k < j :: s[k] == context[k - i - 6] && NotNewline(s[k]);
    assert MatchAt(s, j, ")#") && SpaceToEnd(s, j + 2);
    assert AdminPromptAt(s, i);
  }

  /** The system-admin prompt (`sysadmin...#`) is recognised as admin mode too. */
  lemma SysadminPromptRecognised(host: string, context: string, trail: string)
    requires '\n' !in context
    requires forall k | 0 <= k < |trail| :: IsSpace(trail[k])
    ensures AdminPromptMatch(host + "sysadmin" + context + "#" + trail)
  {
    var s := host + "sysadmin" + context + "#" + trail;
    var i, j := |host|, |host| + 8 + |context|;
    assert s[i..i + 8] == "sysadmin";
    assert s[j] == '#';
    assert forall k | j + 1 <= k < |s| :: s[k] == trail[k - j - 1];
    assert forall k | i + 8 <= k < j :: s[k] == context[k - i - 8] && NotNewline(s[k]);
    assert SpaceToEnd(s, j + 1);
    assert AdminPromptAt(s, i);
  }

  /**
   * The two prompts are told apart by their keywords: output without `admin` is never
   * taken for the admin prompt, output without `(config` never for the configuration
   * prompt.
   */
  lemma PromptsNeedKeywords(s: string)
    ensures AdminPromptMatch(s) ==> Contains(s, "admin")
    ensures ConfigPromptMatch(s) ==> Contains(s, "(config")
  {
    if AdminPromptMatch(s) {
      var i :| 0 <= i < |s| && AdminPromptAt(s, i);
      if MatchAt(s, i, "(admin") {
        assert s[i + 1..i + 6] == s[i..i + 6][1..];
        assert MatchAt(s, i + 1, "admin");
      } else {
        assert s[i + 3..i + 8] == s[i..i + 8][3..];
        assert MatchAt(s, i + 3, "admin");
      }
    }
  }

  // ---------------------------------------------------------------- relations

  /** A node of `CommandMode.RELATIONS_DICT`: a mode and the modes entered from it. */
  datatype Relations = Relations(mode: Mode, children: seq<Relations>)

  const RelationsDict: Relations :=
    Relations(Default, [Relations(Enable, [Relations(Config, []), Relations(Admin, [])])])

  /** The (parent, child) pairs of a tree, in the dictionary's order. */
  function Edges(t: Relations): seq<(Mode, Mode)>
    decreases t, 1
  {
    EdgesFrom(t.mode, t.children, t)
  }

  function EdgesFrom(parent: Mode, cs: seq<Relations>, ghost t: Relations): seq<(Mode, Mode)>
    requires forall c | c in cs :: c < t
    decreases t, 0, |cs|
  {
    if |cs| == 0 then []
    else
      assert cs[0] in cs;
      assert forall c | c in cs[1..] :: c in cs;
      [(parent, cs[0].mode)] + Edges(cs[0]) + EdgesFrom(parent, cs[1..], t)
  }

  /** The mode a mode is entered from in the tree, if any. */
  function ParentIn(edges: seq<(Mode, Mode)>, m: Mode): (p: Option<Mode>)
    ensures p.Some? <==> exists e | e in edges :: e.1 == m
    ensures p.Some? ==> (p.value, m) in edges
  {
    if |edges| == 0 then None
    else if edges[0].1 == m then Some(edges[0].0)
    else ParentIn(edges[1..], m)
  }

  /** The modes entered from `m`, in order. */
  function ChildrenIn(edges: seq<(Mode, Mode)>, m: Mode): (cs: seq<Mode>)
    ensures forall c :: c in cs <==> (m, c) in edges
  {
    if |edges| == 0 then []
    else (if edges[0].0 == m then [edges[0].1] else []) + ChildrenIn(edges[1..], m)
  }

  /** The mode `m` is entered from: set exactly when some link of the tree leads to `m`. */
  function Parent(m: Mode): (p: Option<Mode>)
    ensures p.Some? <==> exists e | e in Edges(RelationsDict) :: e.1 == m
    ensures p.Some? ==> (p.value, m) in Edges(RelationsDict)
  {
    ParentIn(Edges(RelationsDict), m)
  }

  /**
   * The modes above `m`, nearest first, found by following parent links; a path in
   * a tree has no more links than the tree has edges, which bounds the walk.
   */
  function AncestorsIn(edges: seq<(Mode, Mode)>, m: Mode, bound: nat): (a: seq<Mode>)
    ensures |a| <= bound
    ensures |a| > 0 ==> ParentIn(edges, m) == Some(a[0])
    ensures forall i | 0 <= i < |a| - 1 :: ParentIn(edges, a[i]) == Some(a[i + 1])
    decreases bound
  {
    if bound == 0 then []
    else
      match ParentIn(edges, m)
      case None => []
      case Some(p) => [p] + AncestorsIn(edges, p, bound - 1)
  }

  /** The modes above `m`, nearest first: each is the parent of the one before it. */
  function Ancestors(m: Mode): (a: seq<Mode>)
    ensures |a| > 0 ==> Parent(m) == Some(a[0])
    ensures forall i | 0 <= i < |a| - 1 :: Parent(a[i]) == Some(a[i + 1])
  {
    var edges := Edges(RelationsDict);
    AncestorsIn(edges, m, |edges|)
  }

  /** The tree's (parent, child) pairs, written out. */
  const ModeEdges: seq<(Mode, Mode)> := [(Default, Enable), (Enable, Config), (Enable, Admin)]

  lemma RelationsEdges()
    ensures Edges(RelationsDict) == ModeEdges
  {
  }

  lemma ModeEdgesParents()
    ensures ParentIn(ModeEdges, Default) == None
    ensures ParentIn(ModeEdges, Enable) == Some(Default)
    ensures ParentIn(ModeEdges, Config) == Some(Enable)
    ensures ParentIn(ModeEdges, Admin) == Some(Enable)
  {
    assert ModeEdges[1..][1..][1..] == [];
  }

  lemma ModeEdgesChildren()
    ensures ChildrenIn(ModeEdges, Default) == [Enable]
    ensures ChildrenIn(ModeEdges, Enable) == [Config, Admin]
    ensures ChildrenIn(ModeEdges, Config) == [] && ChildrenIn(ModeEdges, Admin) == []
  {
    assert ModeEdges[1..][1..][1..] == [];
  }

  /**
   * The tree: Default is the root and Enable its only child; Config and Admin are the
   * children of Enable, in that order, and enter no further mode.
   */
  lemma RelationsShape()
    ensures Parent(Default).None?
    ensures Parent(Enable) == Some(Default)
    ensures Parent(Config) == Some(Enable) && Parent(Admin) == Some(Enable)
    ensures ChildrenIn(Edges(RelationsDict), Default) == [Enable]
    ensures ChildrenIn(Edges(RelationsDict), Enable) == [Config, Admin]
    ensures ChildrenIn(Edges(RelationsDict), Config) == [] && ChildrenIn(Edges(RelationsDict), Admin) == []
  {
    RelationsEdges();
    ModeEdgesParents();
    ModeEdgesChildren();
  }

  /**
   * The path to the root: Enable sits under Default, and Config and Admin both sit
   * under Enable, so they are siblings and neither lies above the other.
   */
  lemma AncestorsOfModes()
    ensures Ancestors(Default) == []
    ensures Ancestors(Enable) == [Default]
    ensures Ancestors(Config) == [Enable, Default] && Ancestors(Admin) == [Enable, Default]
    ensures Config !in Ancestors(Admin) && Admin !in Ancestors(Config)
  {
    RelationsEdges();
    ModeEdgesAncestors();
  }

  /** The walk up the written-out links, with the bound `Ancestors` gives it. */
  lemma ModeEdgesAncestors()
    ensures AncestorsIn(ModeEdges, Default, 3) == []
    ensures AncestorsIn(ModeEdges, Enable, 3) == [Default]
    ensures AncestorsIn(ModeEdges, Config, 3) == [Enable, Default]
    ensures AncestorsIn(ModeEdges, Admin, 3) == [Enable, Default]
  {
    var edges := ModeEdges;
    ModeEdgesParents();
    assert AncestorsIn(edges, Default, 1) == [];
    assert AncestorsIn(edges, Default, 2) == [];
    assert AncestorsIn(edges, Enable, 2) == [Default];
  }
}
