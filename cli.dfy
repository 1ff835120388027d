/**
 * The interface the device code sees of the CLI library: commands handed to the
 * template executor, what the executor answers, the side effects the device code
 * asks for (reconnect, sleep), and the ordered pattern -> reaction maps the
 * expect-loop consults.
 */
module Cli {

  import opened Wrappers

  /** Command templates of the device's catalog; their text is not part of this model. */
  datatype Template =
    | Load | CommitReplace | Commit
    | InstallAddSource | InstallActivate | InstallCommit
    | ShowInstallRepository | ShowInstallActive | ShowInstallCommit
    | ShowInstallLog | ShowInstallRequest

  /**
   * One call of the template executor: the template, the keyword arguments given to
   * `execute_command` in call order (a `None` argument is `None` here), and the
   * timeout given to the executor, if any (`None`: the template's own).
   */
  datatype Command = Command(template: Template, args: seq<(string, Option<string>)>, timeout: Option<nat>)

  /** A `SessionException` (the connection dropped) or any other executor exception. */
  datatype ExecFailure = SessionFailure | OtherFailure

  /** What one executor call produced: the device's output, or an exception. */
  datatype ExecOutcome = Output(text: string) | Failed(kind: ExecFailure)

  /** Effects on the session, in the order the device code performs them. */
  datatype Event = Execute(cmd: Command) | Reconnect(timeout: int) | Sleep(seconds: nat)

  /**
   * Why an operation did not return: an exception the device code raises itself,
   * carrying the exception's arguments, or an executor exception it lets through.
   */
  datatype Failure = Raised(args: seq<string>) | Propagated(kind: ExecFailure)

  /** The reaction of an action-map entry: send a line to the device. */
  datatype Reaction = SendLine(line: string)

  /** An insertion-ordered dictionary (`OrderedDict`, or a `dict` literal) as its list of items. */
  type OrderedMap<V> = seq<(string, V)>

  /** Pattern -> reaction, consulted in order. */
  type ActionMap = OrderedMap<Reaction>

  /** Pattern -> diagnostic, consulted in order. */
  type ErrorMap = OrderedMap<string>

  function Keys<V>(m: OrderedMap<V>): (ks: seq<string>)
    ensures |ks| == |m|
    ensures forall i {:trigger ks[i]} | 0 <= i < |m| :: ks[i] == m[i].0
  {
    seq(|m|, i requires 0 <= i < |m| => m[i].0)
  }

  lemma KeysConcat<V>(a: OrderedMap<V>, b: OrderedMap<V>)
    ensures Keys(a + b) == Keys(a) + Keys(b)
  {
  }

  /** `m.get(k)`. */
  function Lookup<V>(m: OrderedMap<V>, k: string): Option<V>
  {
    if |m| == 0 then None
    else if m[0].0 == k then Some(m[0].1)
    else Lookup(m[1..], k)
  }

  /**
   * `m[k] = v`: a new key goes to the end, an existing key keeps its place and
   * takes the new value.
   */
  function Insert<V>(m: OrderedMap<V>, k: string, v: V): (r: OrderedMap<V>)
    ensures Keys(r) == if k in Keys(m) then Keys(m) else Keys(m) + [k]
    ensures k !in Keys(m) ==> r == m + [(k, v)]
    ensures Lookup(r, k) == Some(v)
    ensures forall k' | k' != k :: Lookup(r, k') == Lookup(m, k')
  {
    if |m| == 0 then [(k, v)]
    else
      assert m == [m[0]] + m[1..];
      PrependKeys(m[0], m[1..]);
      if m[0].0 == k then
        PrependKeys((k, v), m[1..]);
        assert forall k' :: Lookup([(k, v)] + m[1..], k') == if k == k' then Some(v) else Lookup(m[1..], k') by {
          forall k' { PrependLookup((k, v), m[1..], k'); }
        }
        [(k, v)] + m[1..]
      else
        var rest := Insert(m[1..], k, v);
        PrependKeys(m[0], rest);
        assert k in Keys(m) <==> k in Keys(m[1..]);
        assert forall k' :: Lookup([m[0]] + rest, k') == if m[0].0 == k' then Some(m[0].1) else Lookup(rest, k') by {
          forall k' { PrependLookup(m[0], rest, k'); }
        }
        [m[0]] + rest
  }

  /** The keys of a map with one pair in front. */
  lemma PrependKeys<V>(p: (string, V), m: OrderedMap<V>)
    ensures Keys([p] + m) == [p.0] + Keys(m)
  {
  }

  /** A lookup in a map with one pair in front. */
  lemma PrependLookup<V>(p: (string, V), m: OrderedMap<V>, k: string)
    ensures Lookup([p] + m, k) == if p.0 == k then Some(p.1) else Lookup(m, k)
  {
    assert ([p] + m)[1..] == m;
  }

  /** The result of assigning `pairs` to `m` one after the other, as successive `m[k] = v` do. */
  function Assign<V>(m: OrderedMap<V>, pairs: seq<(string, V)>): OrderedMap<V>
  {
    if |pairs| == 0 then m
    else
      var last := pairs[|pairs| - 1];
      Insert(Assign(m, pairs[..|pairs| - 1]), last.0, last.1)
  }

  lemma AssignSnoc<V>(m: OrderedMap<V>, pairs: seq<(string, V)>, k: string, v: V)
    ensures Assign(m, pairs + [(k, v)]) == Insert(Assign(m, pairs), k, v)
  {
    assert (pairs + [(k, v)])[..|pairs|] == pairs;
  }

  /** The keys in order of first appearance. */
  function Dedup(ks: seq<string>): seq<string>
  {
    if |ks| == 0 then []
    else
      var d := Dedup(ks[..|ks| - 1]);
      if ks[|ks| - 1] in d then d else d + [ks[|ks| - 1]]
  }

  /** The value of the last pair with key `k`. */
  function LastValue<V>(pairs: seq<(string, V)>, k: string): Option<V>
  {
    if |pairs| == 0 then None
    else if pairs[|pairs| - 1].0 == k then Some(pairs[|pairs| - 1].1)
    else LastValue(pairs[..|pairs| - 1], k)
  }

  lemma {:induction false} LastValueConcat<V>(p: seq<(string, V)>, q: seq<(string, V)>, k: string)
    ensures LastValue(p + q, k) == if LastValue(q, k).Some? then LastValue(q, k) else LastValue(p, k)
    decreases |q|
  {
    if |q| > 0 {
      assert (p + q)[..|p + q| - 1] == p + q[..|q| - 1];
      LastValueConcat(p, q[..|q| - 1], k);
    } else {
      assert p + q == p;
    }
  }

  /** The value found for `k` is the value of some pair with key `k`; none is found when no pair has it. */
  lemma {:induction false} LastValueIsAssigned<V>(pairs: seq<(string, V)>, k: string)
    ensures LastValue(pairs, k).Some? <==> k in Keys(pairs)
    ensures LastValue(pairs, k).Some? ==> (k, LastValue(pairs, k).value) in pairs
  {
    if |pairs| > 0 {
      var init := pairs[..|pairs| - 1];
      LastValueIsAssigned(init, k);
      assert Keys(init) == Keys(pairs)[..|pairs| - 1];
      assert Keys(pairs) == Keys(init) + [pairs[|pairs| - 1].0];
    }
  }

  predicate Distinct(ks: seq<string>)
  {
    forall i, j | 0 <= i < j < |ks| :: ks[i] != ks[j]
  }

  /** Dropping the last key keeps the keys distinct, and that key is not among the others. */
  lemma DistinctInit(ks: seq<string>)
    requires |ks| > 0 && Distinct(ks)
    ensures Distinct(ks[..|ks| - 1]) && ks[|ks| - 1] !in ks[..|ks| - 1]
  {
  }

  /**
   * Successive assignments build a dictionary whose keys are the assigned keys in
   * order of first assignment, each holding the value assigned last.
   */
  lemma {:induction false} AssignIsOrderedDict<V>(pairs: seq<(string, V)>)
    ensures Keys(Assign([], pairs)) == Dedup(Keys(pairs))
    ensures forall k :: Lookup(Assign([], pairs), k) == LastValue(pairs, k)
  {
    if |pairs| > 0 {
      var init := pairs[..|pairs| - 1];
      AssignIsOrderedDict(init);
      assert Keys(init) == Keys(pairs)[..|pairs| - 1];
    }
  }

  /** With no key assigned twice, the dictionary is exactly the assignments in order. */
  lemma {:induction false} AssignDistinct<V>(pairs: seq<(string, V)>)
    requires Distinct(Keys(pairs))
    ensures Assign([], pairs) == pairs
  {
    if |pairs| > 0 {
      var n := |pairs| - 1;
      var init := pairs[..n];
      var ks := Keys(pairs);
      assert Keys(init) == ks[..n];
      DistinctInit(ks);
      AssignDistinct(init);
      AssignFreshKey(init, pairs[n]);
      SplitLast(pairs);
    }
  }

  /** Assigning a key not yet present to a dictionary built from `init` appends the pair. */
  lemma AssignFreshKey<V>(init: seq<(string, V)>, last: (string, V))
    requires Assign([], init) == init && last.0 !in Keys(init)
    ensures Assign([], init + [last]) == init + [last]
  {
    AssignSnoc([], init, last.0, last.1);
  }

  /** A non-empty sequence is its prefix followed by its last element. */
  lemma SplitLast<T>(s: seq<T>)
    requires |s| > 0
    ensures s == s[..|s| - 1] + [s[|s| - 1]]
  {
  }

}
