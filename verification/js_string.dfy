module Wrappers {
  datatype Option<+T> = None | Some(value: T)
}

/** The JavaScript `String.prototype` operations the core relies on, with
    their index clamping and replacement-pattern rules written out. */
module JsString {
  import Chars
  import opened Wrappers

  /** How `slice` turns a possibly negative index into a position. */
  function RelativeIndex(k: int, len: nat): (r: nat)
    ensures r <= len
    ensures 0 <= k <= len ==> r == k
    ensures k < 0 && 0 <= len + k ==> r == len + k
    ensures k > len ==> r == len
    ensures len + k < 0 ==> r == 0
  {
    if k < 0 then (if len + k < 0 then 0 else len + k) else if k > len then len else k
  }

  /** `s.slice(start, end)`. */
  function Slice(s: string, start: int, end: int): (r: string)
    ensures |r| <= |s|
  {
    var from := RelativeIndex(start, |s|);
    var to := RelativeIndex(end, |s|);
    if from < to then s[from..to] else []
  }

  /** `s.lastIndexOf(c)` for a one-character needle: the last position
      holding `c`, or -1 when there is none. */
  function LastIndexOf(s: string, c: char): (i: int)
    ensures -1 <= i < |s|
    ensures i >= 0 ==> s[i] == c && forall j :: i < j < |s| ==> s[j] != c
    ensures i == -1 ==> forall j :: 0 <= j < |s| ==> s[j] != c
  {
    if s == [] then -1
    else if s[|s| - 1] == c then |s| - 1
    else LastIndexOf(s[..|s| - 1], c)
  }

  predicate NoDollar(t: string) { forall i :: 0 <= i < |t| ==> t[i] != '$' }

  /** The replacement string of `replace(regex, t)` for a match
      `s[pos..tail]` of a regular expression WITHOUT capture groups:
      `$$`, `$&`, `` $` `` and `$'` are expanded, every other `$` is
      literal. A replacement without `$` is inserted as it is. */
  function Substitution(t: string, s: string, pos: nat, tail: nat): (r: string)
    requires pos <= tail <= |s|
    ensures NoDollar(t) ==> r == t
    decreases |t|
  {
    if t == [] then []
    else if t[0] == '$' && |t| >= 2 && t[1] == '$' then "$" + Substitution(t[2..], s, pos, tail)
    else if t[0] == '$' && |t| >= 2 && t[1] == '&' then s[pos..tail] + Substitution(t[2..], s, pos, tail)
    else if t[0] == '$' && |t| >= 2 && t[1] == '`' then s[..pos] + Substitution(t[2..], s, pos, tail)
    else if t[0] == '$' && |t| >= 2 && t[1] == '\'' then s[tail..] + Substitution(t[2..], s, pos, tail)
    else [t[0]] + Substitution(t[1..], s, pos, tail)
  }

  /** `pat` occurs at `p` under ASCII case folding (the `/i` flag). */
  predicate MatchesAt(s: string, pat: string, p: nat)
  {
    p + |pat| <= |s| && forall j :: 0 <= j < |pat| ==> Chars.FoldCase(s[p + j]) == Chars.FoldCase(pat[j])
  }

  /** `s.replace(new RegExp(<pat escaped>, 'gi'), t)` scanned from `p`:
      every non-overlapping occurrence, left to right, is replaced and the
      scan resumes after it. */
  function ReplaceAllFrom(s: string, pat: string, t: string, p: nat): string
    requires |pat| > 0 && p <= |s|
    decreases |s| - p
  {
    if p == |s| then []
    else if MatchesAt(s, pat, p) then
      Substitution(t, s, p, p + |pat|) + ReplaceAllFrom(s, pat, t, p + |pat|)
    else [s[p]] + ReplaceAllFrom(s, pat, t, p + 1)
  }

  function ReplaceAll(s: string, pat: string, t: string): string
    requires |pat| > 0
  {
    ReplaceAllFrom(s, pat, t, 0)
  }

  /** `s[p..m] + x` taken apart at its first character. */
  lemma ConsSlice(s: string, p: nat, m: nat, x: string)
    requires p < m <= |s|
    ensures [s[p]] + (s[p + 1..m] + x) == s[p..m] + x
  {
    assert s[p..m] == [s[p]] + s[p + 1..m];
  }

  /** Where the pattern does not occur, the scan copies one character. */
  lemma ReplaceAllFromSkip(s: string, pat: string, t: string, p: nat)
    requires |pat| > 0 && p < |s| && !MatchesAt(s, pat, p)
    ensures ReplaceAllFrom(s, pat, t, p) == [s[p]] + ReplaceAllFrom(s, pat, t, p + 1)
  {
  }

  /** A string in which the pattern does not occur is returned unchanged. */
  lemma {:induction false} ReplaceAllFromNoMatch(s: string, pat: string, t: string, p: nat)
    requires |pat| > 0 && p <= |s|
    requires forall q :: p <= q < |s| ==> !MatchesAt(s, pat, q)
    ensures ReplaceAllFrom(s, pat, t, p) == s[p..]
    decreases |s| - p
  {
    if p < |s| {
      ReplaceAllFromNoMatch(s, pat, t, p + 1);
      assert s[p..] == [s[p]] + s[p + 1..];
    }
  }

  /** Replacing in a string with no occurrence of the pattern changes nothing. */
  lemma ReplaceAllNoMatch(s: string, pat: string, t: string)
    requires |pat| > 0
    requires forall q :: 0 <= q < |s| ==> !MatchesAt(s, pat, q)
    ensures ReplaceAll(s, pat, t) == s
  {
    ReplaceAllFromNoMatch(s, pat, t, 0);
  }

  /** An occurrence after a stretch without any occurrence: the stretch is
      copied and the occurrence replaced. */
  lemma {:induction false} ReplaceAllFromFirstMatch(s: string, pat: string, t: string, p: nat, m: nat)
    requires |pat| > 0 && p <= m < |s|
    requires forall q :: p <= q < m ==> !MatchesAt(s, pat, q)
    requires MatchesAt(s, pat, m)
    ensures ReplaceAllFrom(s, pat, t, p)
         == s[p..m] + (Substitution(t, s, m, m + |pat|) + ReplaceAllFrom(s, pat, t, m + |pat|))
    decreases m - p
  {
    if p < m {
      ReplaceAllFromFirstMatch(s, pat, t, p + 1, m);
      ReplaceAllFromSkip(s, pat, t, p);
      ConsSlice(s, p, m, Substitution(t, s, m, m + |pat|) + ReplaceAllFrom(s, pat, t, m + |pat|));
    } else {
      assert s[p..m] == [];
    }
  }

  /** A string in which the pattern occurs exactly once, at `m`. */
  lemma ReplaceAllSingle(s: string, pat: string, t: string, m: nat)
    requires |pat| > 0 && m + |pat| <= |s|
    requires forall q :: 0 <= q < m ==> !MatchesAt(s, pat, q)
    requires MatchesAt(s, pat, m)
    requires forall q :: m + |pat| <= q < |s| ==> !MatchesAt(s, pat, q)
    ensures ReplaceAll(s, pat, t) == s[..m] + (Substitution(t, s, m, m + |pat|) + s[m + |pat|..])
  {
    ReplaceAllFromFirstMatch(s, pat, t, 0, m);
    ReplaceAllFromNoMatch(s, pat, t, m + |pat|);
    assert s[0..m] == s[..m];
  }

  // ---------------------------------------------------------------------
  // A regular expression scanned over a string, reduced to where its
  // matches end: `at(p)` is the end of the match that starts exactly at
  // `p`, if there is one.

  /** Matches are non-empty and lie inside the string. */
  ghost predicate IsMatcher(s: string, at: nat -> Option<nat>)
  {
    forall p :: 0 <= p < |s| && at(p).Some? ==> p < at(p).value <= |s|
  }

  /** Where `s.match(re)` (without the `g` flag) finds its match when the
      search starts at `p`: the leftmost position with a match. */
  function LeftmostFrom(s: string, at: nat -> Option<nat>, p: nat): (r: Option<nat>)
    requires p <= |s|
    ensures r.Some? ==> p <= r.value < |s| && at(r.value).Some?
    decreases |s| - p
  {
    if p == |s| then None
    else if at(p).Some? then Some(p)
    else LeftmostFrom(s, at, p + 1)
  }

  /** A position with a match and none before it is the leftmost one. */
  lemma {:induction false} LeftmostFromFirst(s: string, at: nat -> Option<nat>, p: nat, m: nat)
    requires p <= m < |s| && at(m).Some?
    requires forall q :: p <= q < m ==> at(q).None?
    ensures LeftmostFrom(s, at, p) == Some(m)
    decreases m - p
  {
    if p < m {
      LeftmostFromFirst(s, at, p + 1, m);
    }
  }

  /** `s.replace(re, () => t)` for a `g`-flagged `re` and a callback
      returning `t`, scanned from `p`: every match, left to right, is
      replaced by `t` as it is, and the scan resumes after it. */
  function ReplaceMatchesFrom(s: string, at: nat -> Option<nat>, t: string, p: nat): string
    requires IsMatcher(s, at) && p <= |s|
    decreases |s| - p
  {
    if p == |s| then []
    else match at(p)
      case Some(e) => t + ReplaceMatchesFrom(s, at, t, e)
      case None => [s[p]] + ReplaceMatchesFrom(s, at, t, p + 1)
  }

  /** There is no match before the leftmost one, and none at all when it
      is missing. */
  lemma {:induction false} LeftmostFromIsLeftmost(s: string, at: nat -> Option<nat>, p: nat)
    requires p <= |s|
    ensures LeftmostFrom(s, at, p).Some? ==> forall q :: p <= q < LeftmostFrom(s, at, p).value ==> at(q).None?
    ensures LeftmostFrom(s, at, p).None? ==> forall q :: p <= q < |s| ==> at(q).None?
    decreases |s| - p
  {
    if p < |s| && at(p).None? {
      LeftmostFromIsLeftmost(s, at, p + 1);
    }
  }

  /** Without a match, nothing is replaced. */
  lemma {:induction false} ReplaceMatchesFromNone(s: string, at: nat -> Option<nat>, t: string, p: nat)
    requires IsMatcher(s, at) && p <= |s|
    requires forall q :: p <= q < |s| ==> at(q).None?
    ensures ReplaceMatchesFrom(s, at, t, p) == s[p..]
    decreases |s| - p
  {
    if p < |s| {
      ReplaceMatchesFromNone(s, at, t, p + 1);
      assert s[p..] == [s[p]] + s[p + 1..];
    }
  }

  /** The text before the leftmost match is kept, the match is replaced
      and the scan resumes after it. */
  lemma {:induction false} ReplaceMatchesFromLeftmost(s: string, at: nat -> Option<nat>, t: string, p: nat)
    requires IsMatcher(s, at) && p <= |s| && LeftmostFrom(s, at, p).Some?
    ensures var m := LeftmostFrom(s, at, p).value;
      ReplaceMatchesFrom(s, at, t, p) == s[p..m] + (t + ReplaceMatchesFrom(s, at, t, at(m).value))
    decreases |s| - p
  {
    var m := LeftmostFrom(s, at, p).value;
    if p < m {
      ReplaceMatchesFromLeftmost(s, at, t, p + 1);
      ConsSlice(s, p, m, t + ReplaceMatchesFrom(s, at, t, at(m).value));
    } else {
      assert s[p..m] == [];
    }
  }
}
