/** The `[<algorithm>:<hash name>:<digest>:<length>]` placeholder of a
    local identifier template (src/getLocalIdent.js:236-257), read by the
    case-insensitive regular expression

      \[(?:([^:\]]+):)?(hash|contenthash|fullhash)(?::([a-z]+\d*))?(?::(\d+))?]

    The expression is modelled by a deterministic reader: once its first
    character is seen, every optional group after the hash name either
    matches in full or makes the whole match fail, so backtracking only
    matters for the optional algorithm prefix, which is tried first and
    dropped when the rest does not follow it. */
module HashPlaceholder {
  import opened Chars
  import opened Wrappers
  import JsString

  /** A successful match: where it starts and ends and its groups. */
  datatype Placeholder = Placeholder(
    start: nat,
    algorithm: Option<string>,  // group 1
    name: string,               // group 2, as written
    digest: Option<string>,     // group 3
    length: Option<nat>,        // group 4, read as a number
    end: nat)

  /** The hash settings a placeholder can override. */
  datatype HashSettings = HashSettings(hashFunction: string, hashDigest: string, hashDigestLength: nat)

  /** `[^:\]]+` starting at `p`, as long as possible. */
  function NonSeparatorRun(s: string, p: nat): (n: nat)
    requires p <= |s|
    ensures p + n <= |s|
    ensures p + n < |s| ==> s[p + n] == ':' || s[p + n] == ']'
    decreases |s| - p
  {
    if p < |s| && s[p] != ':' && s[p] != ']' then 1 + NonSeparatorRun(s, p + 1) else 0
  }

  /** `[a-z]+` under the `i` flag: ASCII letters of either case. */
  function LetterRun(s: string, p: nat): (n: nat)
    requires p <= |s|
    ensures p + n <= |s|
    ensures p + n < |s| ==> !IsAsciiLetter(s[p + n])
    decreases |s| - p
  {
    if p < |s| && IsAsciiLetter(s[p]) then 1 + LetterRun(s, p + 1) else 0
  }

  /** `\d*` starting at `p`. */
  function DigitRun(s: string, p: nat): (n: nat)
    requires p <= |s|
    ensures p + n <= |s|
    ensures p + n < |s| ==> !IsDigit(s[p + n])
    decreases |s| - p
  {
    if p < |s| && IsDigit(s[p]) then 1 + DigitRun(s, p + 1) else 0
  }

  /** What `DigitRun` skips are digits. */
  lemma DigitRunDigits(s: string, p: nat)
    requires p <= |s|
    ensures AllDigits(s[p..p + DigitRun(s, p)])
  {
    var n := DigitRun(s, p);
    var run := s[p..p + n];
    DigitRunPointwise(s, p);
    forall i | 0 <= i < |run| ensures IsDigit(run[i]) {
      assert run[i] == s[p + i];
    }
  }

  lemma {:induction false} DigitRunPointwise(s: string, p: nat)
    requires p <= |s|
    ensures forall j :: p <= j < p + DigitRun(s, p) ==> IsDigit(s[j])
    decreases |s| - p
  {
    if p < |s| && IsDigit(s[p]) {
      DigitRunPointwise(s, p + 1);
    }
  }

  /** The length of the hash name at the front of `w` (`hash`,
      `contenthash` or `fullhash` in any ASCII case), 0 when there is none.
      The three names differ in their first letter, so at most one of them
      matches. */
  function NameLength(w: string): (n: nat)
    ensures n == 0 || n == 4 || n == 8 || n == 11
    ensures n <= |w|
    ensures n > 0 ==> IsHashName(w[..n])
  {
    if JsString.MatchesAt(w, "hash", 0) then 4
    else if JsString.MatchesAt(w, "contenthash", 0) then 11
    else if JsString.MatchesAt(w, "fullhash", 0) then 8
    else 0
  }

  /** The optional digest group `(?::([a-z]+\d*))?` at the front of `w`:
      its text, when it matches, and what follows it. */
  function DigestGroup(w: string): (r: (Option<string>, string))
    ensures |r.1| <= |w|
  {
    if |w| > 1 && w[0] == ':' && IsAsciiLetter(w[1]) then
      var a := LetterRun(w, 1);
      var e := 1 + a + DigitRun(w, 1 + a);
      (Some(w[1..e]), w[e..])
    else (None, w)
  }

  /** The optional length group `(?::(\d+))?` at the front of `w`: its
      digits read as a number, when it matches, and what follows it. */
  function LengthGroup(w: string): (r: (Option<nat>, string))
    ensures |r.1| <= |w|
  {
    if |w| > 1 && w[0] == ':' && IsDigit(w[1]) then
      var e := 1 + DigitRun(w, 1);
      DigitRunDigits(w, 1);
      (Some(DecimalValue(w[1..e])), w[e..])
    else (None, w)
  }

  /** The groups read after the opening `[` or the algorithm prefix, and
      how many characters that took (up to and including the `]`). */
  datatype Rest = Rest(name: string, digest: Option<string>, length: Option<nat>, consumed: nat)

  /** The part of a match from the hash name to the closing `]`, read from
      the text `w` that follows the opening `[` or the algorithm prefix.
      Nothing in the expression looks back, so the text before does not
      matter. */
  function RestOf(w: string): (r: Option<Rest>)
    ensures r.Some? ==> 0 < r.value.consumed <= |w|
    ensures r.Some? ==> |r.value.name| <= |w| && w[..|r.value.name|] == r.value.name && IsHashName(r.value.name)
  {
    var n := NameLength(w);
    if n == 0 then None
    else
      var (digest, afterDigest) := DigestGroup(w[n..]);
      var (length, afterLength) := LengthGroup(afterDigest);
      if afterLength != [] && afterLength[0] == ']' then
        Some(Rest(w[..n], digest, length, |w| - |afterLength| + 1))
      else None
  }

  /** The match found at `p` when the rest was read from `k` on. */
  function Located(p: nat, algorithm: Option<string>, k: nat, r: Rest): Placeholder
  {
    Placeholder(p, algorithm, r.name, r.digest, r.length, k + r.consumed)
  }

  /** A match at `p` that reads the rest after `k`, or none. */
  function LocatedAt(s: string, p: nat, algorithm: Option<string>, k: nat): (r: Option<Placeholder>)
    requires p < k <= |s|
    ensures r.Some? ==> r.value.start == p && p < r.value.end <= |s|
  {
    match RestOf(s[k..])
    case None => None
    case Some(rest) => Some(Located(p, algorithm, k, rest))
  }

  /** A match moved `d` characters to the right. */
  function ShiftedBy(r: Option<Placeholder>, d: nat): (q: Option<Placeholder>)
    ensures q.Some? <==> r.Some?
    ensures q.Some? ==>
      q.value.start == r.value.start + d && q.value.end == r.value.end + d
      && (q.value.algorithm, q.value.name, q.value.digest, q.value.length)
      == (r.value.algorithm, r.value.name, r.value.digest, r.value.length)
  {
    if r.None? then None else Some(r.value.(start := r.value.start + d, end := r.value.end + d))
  }

  /** The match of the placeholder expression at the very start of `w`. */
  function MatchFront(w: string): (r: Option<Placeholder>)
    ensures r.Some? ==> r.value.start == 0 && 0 < r.value.end <= |w| && w[0] == '['
  {
    if 0 < |w| && w[0] == '[' then Alternatives(w, 0, true) else None
  }

  /** The match of the placeholder expression starting exactly at `p`. The
      expression looks neither behind nor past the text it reads, so this is
      the match at the front of what follows `p`, moved to `p`. */
  function MatchAt(s: string, p: nat): (r: Option<Placeholder>)
    ensures r.Some? ==> r.value.start == p && p < r.value.end <= |s| && s[p] == '['
  {
    if p < |s| then ShiftedBy(MatchFront(s[p..]), p) else None
  }

  /** The two ways the optional algorithm prefix can be read, in the order
      the regular expression tries them: with the prefix, and when the rest
      does not follow it, without. */
  function Alternatives(s: string, p: nat, withPrefix: bool): (r: Option<Placeholder>)
    requires p < |s|
    ensures r.Some? ==> r.value.start == p && p < r.value.end <= |s|
    decreases withPrefix
  {
    if withPrefix then
      var r := WithAlgorithmAt(s, p);
      if r.Some? then r else Alternatives(s, p, false)
    else LocatedAt(s, p, None, p + 1)
  }

  /** The match at `p` that reads an algorithm name before the first `:`. */
  function WithAlgorithmAt(s: string, p: nat): (r: Option<Placeholder>)
    requires p < |s|
    ensures r.Some? ==> r.value.start == p && p < r.value.end <= |s|
  {
    var a := NonSeparatorRun(s, p + 1);
    if a > 0 && p + 1 + a < |s| && s[p + 1 + a] == ':' then LocatedAt(s, p, Some(s[p + 1..p + 1 + a]), p + 2 + a)
    else None
  }

  /** The placeholder expression reduced to where its matches end. */
  function PlaceholderEnds(s: string): (at: nat -> Option<nat>)
    ensures JsString.IsMatcher(s, at)
  {
    p => if MatchAt(s, p).Some? then Some(MatchAt(s, p).value.end) else None
  }

  /** `localIdentName.match(...)`: the leftmost match, if any. */
  function FirstMatch(s: string): (r: Option<Placeholder>)
    ensures r.Some? ==> MatchAt(s, r.value.start) == r
  {
    match JsString.LeftmostFrom(s, PlaceholderEnds(s), 0)
    case None => None
    case Some(p) => MatchAt(s, p)
  }

  /** `localIdentName.replace(/.../gi, () => replacement)`: every match,
      left to right, is replaced by the callback's string, which is
      inserted literally. */
  function Rewrite(s: string, replacement: string): string
  {
    JsString.ReplaceMatchesFrom(s, PlaceholderEnds(s), replacement, 0)
  }

  /** What every placeholder is rewritten to: `[fullhash]` when the first
      match's hash name is written exactly `fullhash`, `[contenthash]`
      otherwise (src/getLocalIdent.js:250-252). */
  function Replacement(hashName: string): (r: string)
    ensures r == "[fullhash]" <==> hashName == "fullhash"
    ensures r == "[fullhash]" || r == "[contenthash]"
  {
    if hashName == "fullhash" then "[fullhash]" else "[contenthash]"
  }

  /** `mathes[i] || current`: a group that took part in the match replaces
      the current setting; the algorithm and digest groups are never empty
      when they match, and a length group's digits are read as a number. */
  function Override(h: HashSettings, m: Placeholder): (r: HashSettings)
    ensures r.hashFunction == (if m.algorithm.Some? then m.algorithm.value else h.hashFunction)
    ensures r.hashDigest == (if m.digest.Some? then m.digest.value else h.hashDigest)
    ensures r.hashDigestLength == (if m.length.Some? then m.length.value else h.hashDigestLength)
  {
    HashSettings(
      if m.algorithm.Some? then m.algorithm.value else h.hashFunction,
      if m.digest.Some? then m.digest.value else h.hashDigest,
      if m.length.Some? then m.length.value else h.hashDigestLength)
  }

  /** The hash settings and the template after the placeholder step of
      `getLocalIdent`: unchanged when there is no placeholder. */
  function ApplyPlaceholders(template: string, h: HashSettings): (string, HashSettings)
  {
    match FirstMatch(template)
    case None => (template, h)
    case Some(m) => (Rewrite(template, Replacement(m.name)), Override(h, m))
  }

  // ---------------------------------------------------------------------
  // Properties

  /** The first match is the leftmost one: there is no match before it,
      and none at all when it is missing. */
  lemma FirstMatchLeftmost(s: string)
    ensures FirstMatch(s).Some? ==> forall q :: 0 <= q < FirstMatch(s).value.start ==> MatchAt(s, q).None?
    ensures FirstMatch(s).None? ==> forall q :: 0 <= q < |s| ==> MatchAt(s, q).None?
  {
    var at := PlaceholderEnds(s);
    JsString.LeftmostFromIsLeftmost(s, at, 0);
    forall q | 0 <= q < |s| && at(q).None?
      ensures MatchAt(s, q).None?
    {
    }
  }

  /** A template without any placeholder is not rewritten. */
  lemma RewriteNoMatch(s: string, replacement: string)
    requires FirstMatch(s).None?
    ensures Rewrite(s, replacement) == s
  {
    var at := PlaceholderEnds(s);
    JsString.LeftmostFromIsLeftmost(s, at, 0);
    JsString.ReplaceMatchesFromNone(s, at, replacement, 0);
  }

  /** The text before the first placeholder is kept, the placeholder is
      replaced and the scan goes on after it. */
  lemma RewriteFirst(s: string, replacement: string)
    requires FirstMatch(s).Some?
    ensures var m := FirstMatch(s).value;
      Rewrite(s, replacement)
        == s[..m.start] + (replacement + JsString.ReplaceMatchesFrom(s, PlaceholderEnds(s), replacement, m.end))
  {
    JsString.ReplaceMatchesFromLeftmost(s, PlaceholderEnds(s), replacement, 0);
  }

  /** A template without `[` has no placeholder: neither it nor the
      settings change. */
  lemma ApplyPlaceholdersNoBracket(template: string, h: HashSettings)
    requires '[' !in template
    ensures ApplyPlaceholders(template, h) == (template, h)
  {
    if FirstMatch(template).Some? {
      assert false;
    }
  }

  // ---------------------------------------------------------------------
  // Reading back a written placeholder

  predicate AllLetters(d: string) { forall i :: 0 <= i < |d| ==> IsAsciiLetter(d[i]) }

  /** What group 1 accepts. */
  predicate ValidAlgorithm(a: string)
  {
    a != [] && forall i :: 0 <= i < |a| ==> a[i] != ':' && a[i] != ']'
  }

  /** What group 2 accepts: one of the three names in any ASCII case. */
  predicate IsHashName(t: string)
  {
    (|t| == 4 && JsString.MatchesAt(t, "hash", 0))
    || (|t| == 11 && JsString.MatchesAt(t, "contenthash", 0))
    || (|t| == 8 && JsString.MatchesAt(t, "fullhash", 0))
  }

  /** A digest group, written as its letters and its digits. */
  predicate ValidDigest(digest: Option<(string, string)>)
  {
    digest.Some? ==> |digest.value.0| >= 1 && AllLetters(digest.value.0) && AllDigits(digest.value.1)
  }

  predicate ValidLength(length: Option<string>)
  {
    length.Some? ==> |length.value| >= 1 && AllDigits(length.value)
  }

  function AlgorithmText(a: Option<string>): string
  {
    if a.Some? then a.value + ":" else ""
  }

  function DigestText(digest: Option<(string, string)>): string
  {
    if digest.Some? then ":" + (digest.value.0 + digest.value.1) else ""
  }

  function LengthText(length: Option<string>): string
  {
    if length.Some? then ":" + length.value else ""
  }

  /** The placeholder with the given groups, as a template writes it. */
  function Render(a: Option<string>, t: string, digest: Option<(string, string)>, length: Option<string>): string
  {
    "[" + AlgorithmText(a) + t + DigestText(digest) + LengthText(length) + "]"
  }

  /** The characters from the hash name up to and including the `]`. */
  function RestLength(t: string, digest: Option<(string, string)>, length: Option<string>): nat
  {
    |t| + |DigestText(digest)| + |LengthText(length)| + 1
  }

  function DigestValue(digest: Option<(string, string)>): Option<string>
  {
    if digest.Some? then Some(digest.value.0 + digest.value.1) else None
  }

  function LengthValue(length: Option<string>): Option<nat>
    requires ValidLength(length)
  {
    if length.Some? then Some(DecimalValue(length.value)) else None
  }

  /** A written placeholder followed by anything reads back as the groups
      it was written from. Without an algorithm, a digest that starts with
      a hash name could itself be read as `<algorithm>:<hash name>`
      (`[hash:hash]` names the algorithm `hash`), so such a digest is then
      left out; `[hash:base64:5]` and the like are covered. */
  lemma ParseRender(a: Option<string>, t: string, digest: Option<(string, string)>, length: Option<string>, rest: string)
    requires a.Some? ==> ValidAlgorithm(a.value)
    requires IsHashName(t) && ValidDigest(digest) && ValidLength(length)
    requires a.Some? || digest.None? || NameLength(digest.value.0) == 0
    ensures var r := Render(a, t, digest, length);
      MatchAt(r + rest, 0) == Some(Placeholder(0, a, t, DigestValue(digest), LengthValue(length), |r|))
  {
    if a.Some? {
      ParseRenderWithAlgorithm(a.value, t, digest, length, rest);
    } else {
      ParseRenderWithoutAlgorithm(t, digest, length, rest);
    }
  }

  /** A template that starts with a written placeholder takes its hash
      settings from that placeholder's groups, and every placeholder of it
      is rewritten according to the hash name written there. */
  lemma ApplyRenderedPlaceholder(a: Option<string>, t: string, digest: Option<(string, string)>, length: Option<string>, rest: string, h: HashSettings)
    requires a.Some? ==> ValidAlgorithm(a.value)
    requires IsHashName(t) && ValidDigest(digest) && ValidLength(length)
    requires a.Some? || digest.None? || NameLength(digest.value.0) == 0
    ensures ApplyPlaceholders(Render(a, t, digest, length) + rest, h)
      == (Rewrite(Render(a, t, digest, length) + rest, Replacement(t)),
          HashSettings(if a.Some? then a.value else h.hashFunction,
                       if digest.Some? then digest.value.0 + digest.value.1 else h.hashDigest,
                       if length.Some? then DecimalValue(length.value) else h.hashDigestLength))
  {
    ParseRender(a, t, digest, length, rest);
    FirstRendered(Render(a, t, digest, length) + rest,
      Placeholder(0, a, t, DigestValue(digest), LengthValue(length), |Render(a, t, digest, length)|));
  }

  /** A match at the very start is the first match. */
  lemma FirstRendered(s: string, m: Placeholder)
    requires MatchAt(s, 0) == Some(m)
    ensures FirstMatch(s) == Some(m)
  {
    assert PlaceholderEnds(s)(0).Some?;
  }

  lemma ParseRenderWithAlgorithm(x: string, t: string, digest: Option<(string, string)>, length: Option<string>, rest: string)
    requires ValidAlgorithm(x)
    requires IsHashName(t) && ValidDigest(digest) && ValidLength(length)
    ensures var r := Render(Some(x), t, digest, length);
      MatchAt(r + rest, 0) == Some(Placeholder(0, Some(x), t, DigestValue(digest), LengthValue(length), |r|))
  {
    RenderNestedWith(x, t, digest, length, rest);
    MatchAtFront(Render(Some(x), t, digest, length) + rest);
    MatchWithAlgorithm(x, t, digest, length, rest, Render(Some(x), t, digest, length) + rest, |Render(Some(x), t, digest, length)|);
  }

  lemma ParseRenderWithoutAlgorithm(t: string, digest: Option<(string, string)>, length: Option<string>, rest: string)
    requires IsHashName(t) && ValidDigest(digest) && ValidLength(length)
    requires digest.None? || NameLength(digest.value.0) == 0
    ensures var r := Render(None, t, digest, length);
      MatchAt(r + rest, 0) == Some(Placeholder(0, None, t, DigestValue(digest), LengthValue(length), |r|))
  {
    RenderNestedWithout(t, digest, length, rest);
    MatchAtFront(Render(None, t, digest, length) + rest);
    MatchWithoutAlgorithm(t, digest, length, rest, Render(None, t, digest, length) + rest, |Render(None, t, digest, length)|);
  }

  /** The algorithm prefix is read, then the rest after it; `s` is the
      text and `end` where the match ends. */
  lemma MatchWithAlgorithm(x: string, t: string, digest: Option<(string, string)>, length: Option<string>, rest: string, s: string, end: nat)
    requires ValidAlgorithm(x)
    requires IsHashName(t) && ValidDigest(digest) && ValidLength(length)
    requires var tail := t + (DigestText(digest) + (LengthText(length) + ("]" + rest)));
      s == ("[" + (x + ":")) + tail && end == 2 + |x| + RestLength(t, digest, length)
    ensures MatchFront(s) == Some(Placeholder(0, Some(x), t, DigestValue(digest), LengthValue(length), end))
  {
    RestRendered(t, digest, length, rest);
    MatchAfterAlgorithm(x, t + (DigestText(digest) + (LengthText(length) + ("]" + rest))), t, DigestValue(digest), LengthValue(length), RestLength(t, digest, length), s, end);
  }

  /** A match located from its parts, restated field by field. */
  lemma LocatedMatch(m: Option<Placeholder>, algorithm: Option<string>, k: nat, name: string, digest: Option<string>, length: Option<nat>, c: nat, end: nat)
    requires m == Some(Located(0, algorithm, k, Rest(name, digest, length, c))) && end == k + c
    ensures m == Some(Placeholder(0, algorithm, name, digest, length, end))
  {
  }

  /** Reading `[<x>:` followed by text whose rest reads back. */
  lemma MatchAfterAlgorithm(x: string, tail: string, name: string, digest: Option<string>, length: Option<nat>, c: nat, s: string, end: nat)
    requires ValidAlgorithm(x) && RestOf(tail) == Some(Rest(name, digest, length, c))
    requires s == ("[" + (x + ":")) + tail && end == 2 + |x| + c
    ensures MatchFront(s) == Some(Placeholder(0, Some(x), name, digest, length, end))
  {
    RestAfterAlgorithm(x, tail, Rest(name, digest, length, c));
    AlgorithmRendered(x, tail);
    FrontAlgorithmRead(s, x, Rest(name, digest, length, c));
    LocatedMatch(MatchFront(s), Some(x), 2 + |x|, name, digest, length, c, end);
  }

  lemma RestAfterAlgorithm(x: string, tail: string, found: Rest)
    requires RestOf(tail) == Some(found)
    ensures RestOf((("[" + (x + ":")) + tail)[2 + |x|..]) == Some(found)
  {
    DropFront("[" + (x + ":"), tail);
  }

  /** `MatchFront` once the algorithm prefix and the rest after it are known. */
  lemma FrontAlgorithmRead(s: string, x: string, found: Rest)
    requires 0 < |x| && 2 + |x| <= |s| && s[0] == '['
    requires NonSeparatorRun(s, 1) == |x| && s[1 + |x|] == ':' && s[1..1 + |x|] == x
    requires RestOf(s[2 + |x|..]) == Some(found)
    ensures MatchFront(s) == Some(Located(0, Some(x), 2 + |x|, found))
  {
  }

  /** Without an algorithm the prefix attempt fails and the rest is read
      right after the `[`. */
  lemma MatchWithoutAlgorithm(t: string, digest: Option<(string, string)>, length: Option<string>, rest: string, s: string, end: nat)
    requires IsHashName(t) && ValidDigest(digest) && ValidLength(length)
    requires digest.None? || NameLength(digest.value.0) == 0
    requires var tail := t + (DigestText(digest) + (LengthText(length) + ("]" + rest)));
      s == "[" + tail && end == 1 + RestLength(t, digest, length)
    ensures MatchFront(s) == Some(Placeholder(0, None, t, DigestValue(digest), LengthValue(length), end))
  {
    RestRendered(t, digest, length, rest);
    AlgorithmAbsent(t, digest, length, rest);
    MatchAfterBracket(t + (DigestText(digest) + (LengthText(length) + ("]" + rest))), t, DigestValue(digest), LengthValue(length), RestLength(t, digest, length), s, end);
  }

  /** Reading `[` followed by text that does not start with an algorithm
      prefix and whose rest reads back. */
  lemma MatchAfterBracket(tail: string, name: string, digest: Option<string>, length: Option<nat>, c: nat, s: string, end: nat)
    requires RestOf(tail) == Some(Rest(name, digest, length, c))
    requires s == "[" + tail && end == 1 + c
    requires var a := NonSeparatorRun(s, 1);
      a > 0 && 1 + a < |s| && s[1 + a] == ':' ==> RestOf(s[2 + a..]).None?
    ensures MatchFront(s) == Some(Placeholder(0, None, name, digest, length, end))
  {
    DropFront("[", tail);
    FrontPlainRead(s, Rest(name, digest, length, c));
    LocatedMatch(MatchFront(s), None, 1, name, digest, length, c, end);
  }

  /** `MatchFront` once the algorithm prefix is known to fail and the rest
      after the `[` is known. */
  lemma FrontPlainRead(s: string, found: Rest)
    requires 0 < |s| && s[0] == '['
    requires var a := NonSeparatorRun(s, 1);
      a > 0 && 1 + a < |s| && s[1 + a] == ':' ==> RestOf(s[2 + a..]).None?
    requires RestOf(s[1..]) == Some(found)
    ensures MatchFront(s) == Some(Located(0, None, 1, found))
  {
  }

  /** The written text with an algorithm, its concatenations nested to the
      right, and its length split where the rest is read. */
  lemma RenderNestedWith(x: string, t: string, digest: Option<(string, string)>, length: Option<string>, rest: string)
    ensures var tail := t + (DigestText(digest) + (LengthText(length) + ("]" + rest)));
      Render(Some(x), t, digest, length) + rest == ("[" + (x + ":")) + tail
      && |Render(Some(x), t, digest, length)| == 2 + |x| + RestLength(t, digest, length)
  {
    Nest("[" + (x + ":"), t, DigestText(digest), LengthText(length), rest);
  }

  /** The same without an algorithm. */
  lemma RenderNestedWithout(t: string, digest: Option<(string, string)>, length: Option<string>, rest: string)
    ensures var tail := t + (DigestText(digest) + (LengthText(length) + ("]" + rest)));
      Render(None, t, digest, length) + rest == "[" + tail
      && |Render(None, t, digest, length)| == 1 + RestLength(t, digest, length)
  {
    Nest("[" + "", t, DigestText(digest), LengthText(length), rest);
    assert "[" + "" == "[";
  }

  /** Five pieces and what follows them, regrouped to the right. */
  lemma Nest(head: string, t: string, x: string, y: string, rest: string)
    ensures head + t + x + y + "]" + rest == head + (t + (x + (y + ("]" + rest))))
  {
    Associate(head + t + x + y, "]", rest);
    Associate(head + t + x, y, "]" + rest);
    Associate(head + t, x, y + ("]" + rest));
    Associate(head, t, x + (y + ("]" + rest)));
  }

  lemma Associate(a: string, b: string, c: string)
    ensures a + b + c == a + (b + c)
  {
  }

  lemma AlgorithmRendered(x: string, tail: string)
    requires ValidAlgorithm(x)
    ensures var s := ("[" + (x + ":")) + tail;
      2 + |x| <= |s| && s[0] == '[' && NonSeparatorRun(s, 1) == |x| && s[1 + |x|] == ':' && s[1..1 + |x|] == x
  {
    var s := ("[" + (x + ":")) + tail;
    NonSeparatorRunExact(s, 1, |x|);
    assert s[1..1 + |x|] == x;
  }

  /** Without an algorithm, the name cannot be taken for one: what follows
      its `:` is a digest that does not start with a hash name, or a
      length, which starts with a digit. */
  lemma AlgorithmAbsent(t: string, digest: Option<(string, string)>, length: Option<string>, rest: string)
    requires IsHashName(t) && ValidDigest(digest) && ValidLength(length)
    requires digest.None? || NameLength(digest.value.0) == 0
    ensures var s := "[" + (t + (DigestText(digest) + (LengthText(length) + ("]" + rest))));
      var a := NonSeparatorRun(s, 1);
      a > 0 && 1 + a < |s| && s[1 + a] == ':' ==> RestOf(s[2 + a..]).None?
  {
    AfterNameStops(digest, length, rest);
    NameThenNoAlgorithm(t, DigestText(digest) + (LengthText(length) + ("]" + rest)));
  }

  /** What follows the hash name of a written placeholder starts with `:`
      or `]`, and after a `:` comes no hash name. */
  lemma AfterNameStops(digest: Option<(string, string)>, length: Option<string>, rest: string)
    requires ValidDigest(digest) && ValidLength(length)
    requires digest.None? || NameLength(digest.value.0) == 0
    ensures var u := DigestText(digest) + (LengthText(length) + ("]" + rest));
      u != [] && (u[0] == ':' || u[0] == ']') && (u[0] == ':' ==> NameLength(u[1..]) == 0)
  {
    if digest.Some? {
      AfterNameDigest(digest.value.0, digest.value.1, LengthText(length) + ("]" + rest));
    } else if length.Some? {
      AfterNameLength(length.value, "]" + rest);
    }
  }

  lemma AfterNameDigest(l: string, d: string, z: string)
    requires NameLength(l) == 0 && AllDigits(d) && z != [] && (z[0] == ':' || z[0] == ']')
    ensures var u := (":" + (l + d)) + z; u[0] == ':' && NameLength(u[1..]) == 0
  {
    DigestNotAName(l, d, z);
    assert ((":" + (l + d)) + z)[1..] == l + (d + z);
  }

  lemma AfterNameLength(l: string, z: string)
    requires |l| >= 1 && AllDigits(l)
    ensures var u := (":" + l) + z; u[0] == ':' && NameLength(u[1..]) == 0
  {
    assert ((":" + l) + z)[1..] == l + z;
    NoNameAtDigit(l + z);
  }

  /** `[<hash name>` followed by `]`, or by `:` and text that does not
      start with a hash name, cannot be read with an algorithm prefix. */
  lemma NameThenNoAlgorithm(t: string, u: string)
    requires IsHashName(t) && u != [] && (u[0] == ':' || u[0] == ']')
    requires u[0] == ':' ==> NameLength(u[1..]) == 0
    ensures var s := "[" + (t + u);
      var a := NonSeparatorRun(s, 1);
      a > 0 && 1 + a < |s| && s[1 + a] == ':' ==> RestOf(s[2 + a..]).None?
  {
    var s := "[" + (t + u);
    HashNameLetters(t);
    forall j | 1 <= j < 1 + |t| ensures s[j] != ':' && s[j] != ']' {
      assert s[j] == t[j - 1];
    }
    assert s[1 + |t|] == u[0];
    NonSeparatorRunExact(s, 1, |t|);
    assert s[2 + |t|..] == u[1..];
  }

  /** A digest whose letters do not start with a hash name does not start
      one either, whatever follows: the digits or the `:` or `]` after the
      letters stop any name. */
  lemma DigestNotAName(l: string, d: string, z: string)
    requires NameLength(l) == 0 && AllDigits(d) && z != [] && (z[0] == ':' || z[0] == ']')
    ensures NameLength(l + (d + z)) == 0
  {
    assert (d + z)[0] == if d == [] then z[0] else d[0];
    NameNotPast(l, d + z, "hash");
    NameNotPast(l, d + z, "contenthash");
    NameNotPast(l, d + z, "fullhash");
  }

  /** A lower-case name that does not occur at the front of `l` does not
      occur at the front of `l` followed by a character that is not a
      letter. */
  lemma NameNotPast(l: string, y: string, name: string)
    requires forall j :: 0 <= j < |name| ==> 'a' <= name[j] <= 'z'
    requires y != [] && !IsAsciiLetter(y[0]) && !JsString.MatchesAt(l, name, 0)
    ensures !JsString.MatchesAt(l + y, name, 0)
  {
    if |name| <= |l| {
      var j :| 0 <= j < |name| && FoldCase(l[0 + j]) != FoldCase(name[j]);
      assert (l + y)[0 + j] == l[j];
    } else {
      assert (l + y)[0 + |l|] == y[0];
      assert FoldCase(y[0]) != FoldCase(name[|l|]);
    }
  }

  /** The three hash names are made of letters. */
  lemma HashNameLetters(t: string)
    requires IsHashName(t)
    ensures AllLetters(t)
  {
    forall j | 0 <= j < |t| ensures IsAsciiLetter(t[j]) {
      var pat := if |t| == 4 then "hash" else if |t| == 11 then "contenthash" else "fullhash";
      assert JsString.MatchesAt(t, pat, 0);
      assert FoldCase(t[0 + j]) == FoldCase(pat[j]);
      assert 'a' <= pat[j] <= 'z';
    }
  }

  /** A digit does not start a hash name. */
  lemma NoNameAtDigit(w: string)
    requires w != [] && IsDigit(w[0])
    ensures NameLength(w) == 0
  {
    assert FoldCase(w[0 + 0]) == w[0];
    assert FoldCase("hash"[0]) == 'h';
    assert FoldCase("contenthash"[0]) == 'c';
    assert FoldCase("fullhash"[0]) == 'f';
  }

  lemma DropFront(x: string, y: string)
    ensures (x + y)[|x|..] == y
  {
  }

  lemma FrontSlice(b: string, c: string, z: string)
    ensures ((b + c) + z)[|b|..|b| + |c|] == c
  {
  }

  /** The part from the hash name on reads back as its groups. */
  lemma RestRendered(t: string, digest: Option<(string, string)>, length: Option<string>, rest: string)
    requires IsHashName(t) && ValidDigest(digest) && ValidLength(length)
    ensures var w := t + (DigestText(digest) + (LengthText(length) + ("]" + rest)));
      RestOf(w) == Some(Rest(t, DigestValue(digest), LengthValue(length), RestLength(t, digest, length)))
  {
    NameRendered(t, DigestText(digest) + (LengthText(length) + ("]" + rest)));
    DigestRendered(digest, length, "]" + rest);
    LengthRendered(length, "]" + rest);
    RestOfRead(t + (DigestText(digest) + (LengthText(length) + ("]" + rest))), |t|, DigestText(digest) + (LengthText(length) + ("]" + rest)), LengthText(length) + ("]" + rest), "]" + rest,
      t, DigestValue(digest), LengthValue(length), RestLength(t, digest, length));
  }

  /** `RestOf` once the text after each group is known. */
  lemma RestOfRead(w: string, n: nat, afterName: string, afterDigest: string, afterLength: string,
                   name: string, digest: Option<string>, length: Option<nat>, c: nat)
    ensures 0 < n <= |w| && NameLength(w) == n && w[..n] == name && w[n..] == afterName
         && DigestGroup(afterName) == (digest, afterDigest) && LengthGroup(afterDigest) == (length, afterLength)
         && afterLength != [] && afterLength[0] == ']' && c == |w| - |afterLength| + 1
         ==> RestOf(w) == Some(Rest(name, digest, length, c))
  {
  }

  lemma NameRendered(t: string, y: string)
    requires IsHashName(t)
    ensures NameLength(t + y) == |t| && (t + y)[..|t|] == t && (t + y)[|t|..] == y
  {
    var w := t + y;
    assert w[..|t|] == t;
    assert w[|t|..] == y;
    assert FoldCase(w[0]) == FoldCase(t[0]);
    if |t| == 4 && JsString.MatchesAt(t, "hash", 0) {
    } else if |t| == 11 && JsString.MatchesAt(t, "contenthash", 0) {
      assert FoldCase(t[0 + 0]) == FoldCase("contenthash"[0]) == 'c';
      assert !JsString.MatchesAt(w, "hash", 0) by {
        assert FoldCase("hash"[0]) == 'h';
      }
    } else {
      assert FoldCase(t[0 + 0]) == FoldCase("fullhash"[0]) == 'f';
      assert !JsString.MatchesAt(w, "hash", 0) by {
        assert FoldCase("hash"[0]) == 'h';
      }
      assert !JsString.MatchesAt(w, "contenthash", 0) by {
        assert FoldCase("contenthash"[0]) == 'c';
      }
    }
  }

  lemma DigestRendered(digest: Option<(string, string)>, length: Option<string>, z: string)
    requires ValidDigest(digest) && ValidLength(length) && z != [] && z[0] == ']'
    ensures var y := LengthText(length) + z;
      DigestGroup(DigestText(digest) + y) == (DigestValue(digest), y)
  {
    var y := LengthText(length) + z;
    assert y[0] == ']' || (y[0] == ':' && |y| > 1 && IsDigit(y[1]));
    if digest.Some? {
      assert DigestText(digest) + y == (":" + (digest.value.0 + digest.value.1)) + y;
      DigestGroupRead(digest.value.0, digest.value.1, y);
    } else {
      assert DigestText(digest) + y == y;
    }
  }

  lemma DigestGroupRead(l: string, d: string, y: string)
    requires |l| >= 1 && AllLetters(l) && AllDigits(d)
    requires y != [] && (y[0] == ':' || y[0] == ']')
    ensures DigestGroup((":" + (l + d)) + y) == (Some(l + d), y)
  {
    var w := (":" + (l + d)) + y;
    LetterRunExact(w, 1, |l|);
    DigitRunExact(w, 1 + |l|, |d|);
    FrontSlice(":", l + d, y);
    DropFront(":" + (l + d), y);
  }

  lemma LengthRendered(length: Option<string>, z: string)
    requires ValidLength(length)
    requires z != [] && z[0] == ']'
    ensures LengthGroup(LengthText(length) + z) == (LengthValue(length), z)
  {
    if length.Some? {
      assert LengthText(length) + z == (":" + length.value) + z;
      LengthGroupRead(length.value, z);
    } else {
      assert LengthText(length) + z == z;
    }
  }

  lemma LengthGroupRead(l: string, z: string)
    requires |l| >= 1 && AllDigits(l)
    requires z != [] && z[0] == ']'
    ensures LengthGroup((":" + l) + z) == (Some(DecimalValue(l)), z)
  {
    var w := (":" + l) + z;
    DigitRunExact(w, 1, |l|);
    FrontSlice(":", l, z);
    DropFront(":" + l, z);
  }

  lemma {:induction false} NonSeparatorRunExact(s: string, p: nat, n: nat)
    requires p + n <= |s|
    requires forall j :: p <= j < p + n ==> s[j] != ':' && s[j] != ']'
    requires p + n == |s| || s[p + n] == ':' || s[p + n] == ']'
    ensures NonSeparatorRun(s, p) == n
    decreases n
  {
    if n > 0 {
      NonSeparatorRunExact(s, p + 1, n - 1);
    }
  }

  lemma {:induction false} LetterRunExact(s: string, p: nat, n: nat)
    requires p + n <= |s|
    requires forall j :: p <= j < p + n ==> IsAsciiLetter(s[j])
    requires p + n == |s| || !IsAsciiLetter(s[p + n])
    ensures LetterRun(s, p) == n
    decreases n
  {
    if n > 0 {
      LetterRunExact(s, p + 1, n - 1);
    }
  }

  lemma {:induction false} DigitRunExact(s: string, p: nat, n: nat)
    requires p + n <= |s|
    requires forall j :: p <= j < p + n ==> IsDigit(s[j])
    requires p + n == |s| || !IsDigit(s[p + n])
    ensures DigitRun(s, p) == n
    decreases n
  {
    if n > 0 {
      DigitRunExact(s, p + 1, n - 1);
    }
  }

  // ---------------------------------------------------------------------
  // What a match is made of, and matches after other text

  lemma DigestGroupSuffix(w: string)
    ensures DigestGroup(w).1 == w[|w| - |DigestGroup(w).1|..]
  {
  }

  lemma LengthGroupSuffix(w: string)
    ensures LengthGroup(w).1 == w[|w| - |LengthGroup(w).1|..]
  {
  }

  /** The rest read by `RestOf` ends with the closing `]`, after the hash
      name. */
  lemma RestOfCloses(w: string)
    ensures RestOf(w).Some? ==>
      |RestOf(w).value.name| < RestOf(w).value.consumed && w[RestOf(w).value.consumed - 1] == ']'
  {
    if RestOf(w).Some? {
      var n := NameLength(w);
      var afterDigest := DigestGroup(w[n..]).1;
      var afterLength := LengthGroup(afterDigest).1;
      assert afterLength != [] && RestOf(w).value.consumed == |w| - |afterLength| + 1;
      DigestGroupSuffix(w[n..]);
      LengthGroupSuffix(afterDigest);
      SuffixOfSuffix(w, n, afterDigest, afterLength);
    }
  }

  /** The first character of a suffix of a suffix of `w[n..]`. */
  lemma SuffixOfSuffix(w: string, n: nat, u: string, v: string)
    requires n <= |w| && |u| <= |w| - n && u == w[n..][|w[n..]| - |u|..]
    requires |v| <= |u| && v == u[|u| - |v|..] && v != []
    ensures |v| <= |w| - n && w[|w| - |v|] == v[0]
  {
    assert v[0] == u[|u| - |v|];
  }

  lemma {:induction false} NonSeparatorRunPointwise(s: string, p: nat)
    requires p <= |s|
    ensures forall j :: p <= j < p + NonSeparatorRun(s, p) ==> s[j] != ':' && s[j] != ']'
    decreases |s| - p
  {
    if p < |s| && s[p] != ':' && s[p] != ']' {
      NonSeparatorRunPointwise(s, p + 1);
    }
  }

  /** `m` is read from `s` as a placeholder is written: `[`, the algorithm
      and its `:` when there is one, a hash name, and a closing `]` where
      the match ends. */
  predicate Shaped(s: string, m: Placeholder)
  {
    var k := m.start + 1 + |AlgorithmText(m.algorithm)|;
    k + |m.name| < m.end <= |s|
    && s[m.start..k] == "[" + AlgorithmText(m.algorithm)
    && (m.algorithm.Some? ==> ValidAlgorithm(m.algorithm.value))
    && s[k..k + |m.name|] == m.name && IsHashName(m.name)
    && s[m.end - 1] == ']'
  }

  /** Whatever `MatchAt` accepts is a placeholder as written. */
  lemma MatchAtShape(s: string, p: nat)
    ensures MatchAt(s, p).Some? ==> Shaped(s, MatchAt(s, p).value)
  {
    if p < |s| {
      assert MatchAt(s, p) == ShiftedBy(MatchFront(s[p..]), p);
      FrontShape(s[p..]);
      ShapedShift(s, p, MatchFront(s[p..]));
    }
  }

  /** Whatever `MatchFront` accepts is a placeholder as written. */
  lemma FrontShape(w: string)
    ensures MatchFront(w).Some? ==> Shaped(w, MatchFront(w).value)
  {
    if 0 < |w| && w[0] == '[' {
      if WithAlgorithmAt(w, 0).Some? {
        FrontShapeWith(w);
      } else {
        FrontShapeWithout(w);
      }
    }
  }

  /** The match read with the algorithm prefix has the written shape. */
  lemma FrontShapeWith(w: string)
    requires 0 < |w| && w[0] == '[' && WithAlgorithmAt(w, 0).Some?
    ensures MatchFront(w) == WithAlgorithmAt(w, 0) && Shaped(w, WithAlgorithmAt(w, 0).value)
  {
    var a := NonSeparatorRun(w, 1);
    var r := RestOf(w[2 + a..]).value;
    assert WithAlgorithmAt(w, 0) == Some(Located(0, Some(w[1..1 + a]), 2 + a, r));
    RestInText(w, 2 + a, r);
    NonSeparatorRunPointwise(w, 1);
    ShapeWithAlgorithm(w, a, r);
  }

  /** When the algorithm prefix does not read, the match read right after
      the `[` has the written shape. */
  lemma FrontShapeWithout(w: string)
    requires 0 < |w| && w[0] == '[' && WithAlgorithmAt(w, 0).None?
    ensures MatchFront(w) == LocatedAt(w, 0, None, 1)
    ensures MatchFront(w).Some? ==> Shaped(w, MatchFront(w).value)
  {
    if RestOf(w[1..]).Some? {
      var r := RestOf(w[1..]).value;
      RestInText(w, 1, r);
      ShapeWithoutAlgorithm(w, r);
    }
  }

  /** The rest `r` is written in `w` from `k` on: the hash name right at
      `k`, and the closing `]` where the rest ends. */
  predicate RestWritten(w: string, k: nat, r: Rest)
  {
    |r.name| < r.consumed && k + r.consumed <= |w|
    && w[k..k + |r.name|] == r.name && IsHashName(r.name) && w[k + r.consumed - 1] == ']'
  }

  lemma RestInText(w: string, k: nat, r: Rest)
    requires k <= |w| && RestOf(w[k..]) == Some(r)
    ensures RestWritten(w, k, r)
  {
    RestOfCloses(w[k..]);
    assert w[k..][..|r.name|] == w[k..k + |r.name|];
    assert w[k..][r.consumed - 1] == w[k + r.consumed - 1];
  }

  /** The shape of a match read with an algorithm prefix of length `a`. */
  lemma ShapeWithAlgorithm(w: string, a: nat, r: Rest)
    requires 0 < a && 1 + a < |w| && w[0] == '[' && w[1 + a] == ':'
    requires forall j :: 1 <= j < 1 + a ==> w[j] != ':' && w[j] != ']'
    requires RestWritten(w, 2 + a, r)
    ensures Shaped(w, Located(0, Some(w[1..1 + a]), 2 + a, r))
  {
    AlgorithmSlice(w, a);
    assert |AlgorithmText(Some(w[1..1 + a]))| == 1 + a;
  }

  /** The shape of a match read right after the `[`. */
  lemma ShapeWithoutAlgorithm(w: string, r: Rest)
    requires 0 < |w| && w[0] == '[' && RestWritten(w, 1, r)
    ensures Shaped(w, Located(0, None, 1, r))
  {
    assert w[..1] == "[" + AlgorithmText(None);
  }

  lemma AlgorithmSlice(w: string, a: nat)
    requires 2 + a <= |w| && w[0] == '[' && w[1 + a] == ':'
    requires forall j :: 1 <= j < 1 + a ==> w[j] != ':' && w[j] != ']'
    ensures w[..2 + a] == "[" + AlgorithmText(Some(w[1..1 + a]))
    ensures a > 0 ==> ValidAlgorithm(w[1..1 + a])
  {
    assert w[..2 + a] == "[" + (w[1..1 + a] + ":");
  }

  /** A shape read after `p` is a shape read from the whole text, moved to
      `p`. */
  lemma ShapedShift(s: string, p: nat, r: Option<Placeholder>)
    requires p <= |s| && (r.Some? ==> Shaped(s[p..], r.value))
    ensures ShiftedBy(r, p).Some? ==> Shaped(s, ShiftedBy(r, p).value)
  {
    if r.Some? {
      var m := r.value;
      var k := m.start + 1 + |AlgorithmText(m.algorithm)|;
      assert s[p..][m.start..k] == s[p + m.start..p + k];
      assert s[p..][k..k + |m.name|] == s[p + k..p + k + |m.name|];
      assert s[p..][m.end - 1] == s[p + m.end - 1];
    }
  }

  /** The match at the start of a text is its `MatchFront`. */
  lemma MatchAtFront(s: string)
    ensures MatchAt(s, 0) == MatchFront(s)
  {
    assert s[0..] == s;
  }

  /** The expression reads the same after any text: a match at `p` in `s`
      is the match at `|x| + p` in `x + s`, moved by `|x|`. */
  lemma MatchAtShift(x: string, s: string, p: nat)
    ensures MatchAt(x + s, |x| + p) == ShiftedBy(MatchAt(s, p), |x|)
  {
    if p < |s| {
      assert (x + s)[|x| + p..] == s[p..];
      assert MatchAt(x + s, |x| + p) == ShiftedBy(MatchFront(s[p..]), |x| + p);
      ShiftTwice(MatchFront(s[p..]), p, |x|);
    }
  }

  lemma ShiftTwice(r: Option<Placeholder>, p: nat, d: nat)
    ensures ShiftedBy(ShiftedBy(r, p), d) == ShiftedBy(r, d + p)
  {
  }

  /** A match at `k` with none before it is the first match. */
  lemma FirstMatchAt(s: string, k: nat, m: Placeholder)
    requires forall q :: 0 <= q < k ==> MatchAt(s, q).None?
    requires MatchAt(s, k) == Some(m)
    ensures FirstMatch(s) == Some(m)
  {
    JsString.LeftmostFromFirst(s, PlaceholderEnds(s), 0, k);
  }

  /** A template whose text before a written placeholder holds no match
      takes its hash settings from that placeholder's groups, and every
      placeholder of it is rewritten according to the hash name written
      there. */
  lemma ApplyPlaceholderAfter(x: string, a: Option<string>, t: string, digest: Option<(string, string)>, length: Option<string>, rest: string, h: HashSettings)
    requires a.Some? ==> ValidAlgorithm(a.value)
    requires IsHashName(t) && ValidDigest(digest) && ValidLength(length)
    requires a.Some? || digest.None? || NameLength(digest.value.0) == 0
    requires forall q :: 0 <= q < |x| ==> MatchAt(x + (Render(a, t, digest, length) + rest), q).None?
    ensures ApplyPlaceholders(x + (Render(a, t, digest, length) + rest), h)
      == (Rewrite(x + (Render(a, t, digest, length) + rest), Replacement(t)),
          HashSettings(if a.Some? then a.value else h.hashFunction,
                       if digest.Some? then digest.value.0 + digest.value.1 else h.hashDigest,
                       if length.Some? then DecimalValue(length.value) else h.hashDigestLength))
  {
    ParseRender(a, t, digest, length, rest);
    ApplyAfter(x, Render(a, t, digest, length) + rest,
      Placeholder(0, a, t, DigestValue(digest), LengthValue(length), |Render(a, t, digest, length)|), h);
  }

  /** The placeholder step on `x + u` when `x` holds no match and `u` starts
      with one. */
  lemma ApplyAfter(x: string, u: string, m: Placeholder, h: HashSettings)
    requires forall q :: 0 <= q < |x| ==> MatchAt(x + u, q).None?
    requires MatchAt(u, 0) == Some(m)
    ensures ApplyPlaceholders(x + u, h) == (Rewrite(x + u, Replacement(m.name)), Override(h, m))
  {
    MatchAfter(x, u, m);
    ApplyAt(x + u, |x|, m.(start := m.start + |x|, end := m.end + |x|), h);
  }

  /** A match at the start of `s` is a match right after `x` in `x + s`. */
  lemma MatchAfter(x: string, s: string, m: Placeholder)
    requires MatchAt(s, 0) == Some(m)
    ensures MatchAt(x + s, |x|) == Some(m.(start := m.start + |x|, end := m.end + |x|))
  {
    MatchAtShift(x, s, 0);
  }

  /** The placeholder step once the first match is known. */
  lemma ApplyAt(s: string, k: nat, m: Placeholder, h: HashSettings)
    requires forall q :: 0 <= q < k ==> MatchAt(s, q).None?
    requires MatchAt(s, k) == Some(m)
    ensures ApplyPlaceholders(s, h) == (Rewrite(s, Replacement(m.name)), Override(h, m))
  {
    FirstMatchAt(s, k, m);
  }

  /** A written placeholder after text without `[` decides the hash
      settings and the rewriting. */
  lemma ApplyPlaceholderAfterPlainText(x: string, a: Option<string>, t: string, digest: Option<(string, string)>, length: Option<string>, rest: string, h: HashSettings)
    requires '[' !in x
    requires a.Some? ==> ValidAlgorithm(a.value)
    requires IsHashName(t) && ValidDigest(digest) && ValidLength(length)
    requires a.Some? || digest.None? || NameLength(digest.value.0) == 0
    ensures ApplyPlaceholders(x + (Render(a, t, digest, length) + rest), h)
      == (Rewrite(x + (Render(a, t, digest, length) + rest), Replacement(t)),
          HashSettings(if a.Some? then a.value else h.hashFunction,
                       if digest.Some? then digest.value.0 + digest.value.1 else h.hashDigest,
                       if length.Some? then DecimalValue(length.value) else h.hashDigestLength))
  {
    NoMatchInPlainText(x, Render(a, t, digest, length) + rest);
    ApplyPlaceholderAfter(x, a, t, digest, length, rest, h);
  }

  /** Text without `[` holds no match. */
  lemma NoMatchInPlainText(x: string, s: string)
    requires '[' !in x
    ensures forall q :: 0 <= q < |x| ==> MatchAt(x + s, q).None?
  {
    forall q | 0 <= q < |x| ensures MatchAt(x + s, q).None? {
      assert (x + s)[q] == x[q];
    }
  }
}
