/**
 * Character classes and string helpers shared by the pattern predicates:
 * the pieces of Python's `re` and `str` behaviour that the device code relies on.
 */
module Text {

  import opened Wrappers

  /** ASCII case folding, as `re.IGNORECASE` applies it to the ASCII letters of the patterns. */
  function Lower(c: char): char
  {
    if 'A' <= c <= 'Z' then (c as int + 32) as char else c
  }

  predicate IsDigit(c: char) { '0' <= c <= '9' }

  predicate IsNonZeroDigit(c: char) { '1' <= c <= '9' }

  /** The characters Python's `\s` matches in a `str` pattern (those for which `str.isspace` holds). */
  predicate IsSpace(c: char)
  {
    var n := c as int;
    (9 <= n <= 13) || (28 <= n <= 32) || n == 0x85 || n == 0xA0 || n == 0x1680 ||
    (0x2000 <= n <= 0x200A) || n == 0x2028 || n == 0x2029 || n == 0x202F || n == 0x205F || n == 0x3000
  }

  /** Any character the regex `.` matches (no DOTALL flag is used). */
  predicate NotNewline(c: char) { c != '\n' }

  /** `w` occurs in `s` at position `i`, exactly. */
  predicate MatchAt(s: string, i: nat, w: string)
  {
    i + |w| <= |s| && s[i..i + |w|] == w
  }

  /** `w` occurs in `s` at position `i`, ignoring ASCII case. */
  predicate MatchAtCI(s: string, i: nat, w: string)
  {
    i + |w| <= |s| && forall k | 0 <= k < |w| :: Lower(s[i + k]) == Lower(w[k])
  }

  /** Python's `w in s` for strings. */
  predicate Contains(s: string, w: string)
  {
    exists i | 0 <= i <= |s| :: MatchAt(s, i, w)
  }

  /** The end of the longest run of characters satisfying `p` that starts at `i`. */
  function RunEnd(s: string, i: nat, p: char -> bool): (j: nat)
    requires i <= |s|
    ensures i <= j <= |s|
    ensures forall k | i <= k < j :: p(s[k])
    ensures j < |s| ==> !p(s[j])
    decreases |s| - i
  {
    if i < |s| && p(s[i]) then RunEnd(s, i + 1, p) else i
  }

  /** A run is where `p` holds throughout and then fails or the string ends. */
  lemma RunEndSpan(s: string, i: nat, j: nat, p: char -> bool)
    requires i <= j <= |s|
    requires forall k | i <= k < j :: p(s[k])
    requires j < |s| ==> !p(s[j])
    ensures RunEnd(s, i, p) == j
  {
  }

  /** The index of the first line break at or after `i`, or `|s|`: where `.*` stops and `$` matches. */
  function LineEnd(s: string, i: nat): nat
    requires i <= |s|
  {
    RunEnd(s, i, NotNewline)
  }

  /** Where `^` matches under `re.MULTILINE`. */
  predicate LineStart(s: string, i: nat)
  {
    i == 0 || (i <= |s| && s[i - 1] == '\n')
  }

  /** Python's `sep.join(parts)` for a one-character separator. */
  function Join(sep: char, parts: seq<string>): string
  {
    if |parts| == 0 then ""
    else if |parts| == 1 then parts[0]
    else parts[0] + [sep] + Join(sep, parts[1..])
  }

  /** The first index of `c` in `s`, if any. */
  function IndexOf(s: string, c: char): (r: Option<nat>)
    ensures r.Some? ==> r.value < |s| && s[r.value] == c && c !in s[..r.value]
    ensures r.None? <==> c !in s
  {
    if |s| == 0 then None
    else if s[0] == c then Some(0)
    else
      var r := IndexOf(s[1..], c);
      assert s == [s[0]] + s[1..];
      if r.Some? then Some(r.value + 1) else None
  }

  /** Python's `s.split(sep)`: the pieces between separators, `[""]` for the empty string. */
  function Split(sep: char, s: string): (r: seq<string>)
    ensures |r| > 0
    decreases |s|
  {
    match IndexOf(s, sep)
    case None => [s]
    case Some(k) => [s[..k]] + Split(sep, s[k + 1..])
  }

  /** Splitting a join gives back the parts, when no part holds the separator. */
  lemma {:induction false} SplitJoin(sep: char, parts: seq<string>)
    requires |parts| > 0
    requires forall i | 0 <= i < |parts| :: sep !in parts[i]
    ensures Split(sep, Join(sep, parts)) == parts
  {
    if |parts| == 1 {
      assert IndexOf(parts[0], sep).None?;
    } else {
      var p, tail := parts[0], parts[1..];
      assert Join(sep, parts) == p + [sep] + Join(sep, tail);
      SplitAfterPrefix(p, sep, Join(sep, tail));
      assert forall i | 0 <= i < |tail| :: sep !in tail[i] by {
        forall i | 0 <= i < |tail| ensures sep !in tail[i] {
          assert tail[i] == parts[i + 1];
        }
      }
      SplitJoin(sep, tail);
      assert parts == [p] + tail;
    }
  }

  /** Splitting at the first separator, which closes a prefix that has none. */
  lemma SplitAfterPrefix(p: string, c: char, rest: string)
    requires c !in p
    ensures Split(c, p + [c] + rest) == [p] + Split(c, rest)
  {
    var s := p + [c] + rest;
    IndexOfAfterPrefix(p, c, rest);
    assert s[..|p|] == p;
    assert s[|p| + 1..] == rest;
  }

  lemma IndexOfAfterPrefix(p: string, c: char, rest: string)
    requires c !in p
    ensures IndexOf(p + [c] + rest, c) == Some(|p|)
  {
    var s := p + [c] + rest;
    var r := IndexOf(s, c);
    assert s[|p|] == c;
    assert c in s;
    assert s[..|p|] == p;
  }

  /** A joined string is empty exactly when there was nothing to join or one empty part. */
  lemma {:induction false} JoinEmpty(sep: char, parts: seq<string>)
    ensures Join(sep, parts) == "" <==> |parts| == 0 || (|parts| == 1 && parts[0] == "")
  {
    if |parts| > 1 {
      assert |Join(sep, parts)| >= 1;
    }
  }

  lemma MatchAtIndex(s: string, i: nat, w: string, k: nat)
    requires MatchAt(s, i, w) && k < |w|
    ensures s[i + k] in w
  {
    assert s[i..i + |w|][k] == w[k];
  }

  /**
   * Whether `w` occurs in `t + u` is decided by `t` alone when `u` starts with a
   * character `w` lacks and does not itself contain `w`.
   */
  lemma ContainsConcat(t: string, u: string, w: string)
    requires |w| > 0 && |u| > 0
    requires u[0] !in w
    requires !Contains(u, w)
    ensures Contains(t + u, w) <==> Contains(t, w)
  {
    var s := t + u;
    if Contains(t, w) {
      var i :| 0 <= i <= |t| && MatchAt(t, i, w);
      assert s[i..i + |w|] == t[i..i + |w|];
      assert MatchAt(s, i, w);
    }
    if Contains(s, w) {
      var i :| 0 <= i <= |s| && MatchAt(s, i, w);
      if i + |w| <= |t| {
        assert t[i..i + |w|] == s[i..i + |w|];
        assert MatchAt(t, i, w);
      } else if i <= |t| {
        MatchAtIndex(s, i, w, |t| - i);
        assert false;
      } else {
        assert u[i - |t|..i - |t| + |w|] == s[i..i + |w|];
        assert MatchAt(u, i - |t|, w);
        assert false;
      }
    }
  }
}
