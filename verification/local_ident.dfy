/** `getLocalIdent` (src/getLocalIdent.js:191-303): the pure pieces it is
    built from and the function itself, which updates the `content` field
    of the options object it is given and returns the escaped identifier.
    The hash, webpack's `getPath`, Node's `path` functions and the match
    of the `regExp` option are foreign calls and are parameters (`Host`). */
module LocalIdent {
  import opened Chars
  import opened Wrappers
  import JsString
  import CssEscape
  import CssUnescape
  import EscapeTokens
  import EscapeRoundTrip
  import HashPlaceholder

  // ---------------------------------------------------------------------
  // Replacing every character of a class: `s.replace(/[...]/g, sub)`

  /** A one-character class as a matcher: a match starts at every position
      holding a character of the class and covers it alone. */
  function ClassEnds(s: string, hit: char -> bool): (at: nat -> Option<nat>)
    ensures JsString.IsMatcher(s, at)
  {
    (p: nat) => if p < |s| && hit(s[p]) then Some(p + 1) else None
  }

  /** `s.replace(/[<class>]/g, sub)` for a replacement character `sub`, which
      is not `$` and is therefore inserted as it is. */
  function ReplaceClass(s: string, hit: char -> bool, sub: char): string
  {
    JsString.ReplaceMatchesFrom(s, ClassEnds(s, hit), [sub], 0)
  }

  lemma {:induction false} ReplaceClassFrom(s: string, hit: char -> bool, sub: char, p: nat)
    requires p <= |s|
    ensures var r := JsString.ReplaceMatchesFrom(s, ClassEnds(s, hit), [sub], p);
      |r| == |s| - p && forall i :: 0 <= i < |r| ==> r[i] == (if hit(s[p + i]) then sub else s[p + i])
    decreases |s| - p
  {
    if p < |s| {
      ReplaceClassFrom(s, hit, sub, p + 1);
    }
  }

  /** The replacement works character by character: every character of
      the class becomes `sub`, every other one is kept, nothing moves. */
  lemma ReplaceClassPointwise(s: string, hit: char -> bool, sub: char)
    ensures |ReplaceClass(s, hit, sub)| == |s|
    ensures forall i :: 0 <= i < |s| ==> ReplaceClass(s, hit, sub)[i] == (if hit(s[i]) then sub else s[i])
  {
    ReplaceClassFrom(s, hit, sub, 0);
  }

  // ---------------------------------------------------------------------
  // `escapeLocalIdent` (src/getLocalIdent.js:50-52, 191-201)

  /** `filenameReservedRegex`: `" * / : < > ? \ |`. */
  predicate IsReserved(c: char)
  {
    c == '"' || c == '*' || c == '/' || c == ':' || c == '<' || c == '>' || c == '?' || c == '\\' || c == '|'
  }

  /** `reControlChars`: U+0000-U+001F and U+0080-U+009F. */
  predicate IsControl(c: char)
  {
    c <= '\U{1f}' || '\U{80}' <= c <= '\U{9f}'
  }

  predicate IsDot(c: char) { c == '.' }

  /** What `/^((-?\d)|--)/` finds: a leading digit, `-` and a digit, or `--`. */
  predicate NeedsGuard(s: string)
  {
    (|s| >= 1 && IsDigit(s[0])) || (|s| >= 2 && s[0] == '-' && (IsDigit(s[1]) || s[1] == '-'))
  }

  /** `s.replace(/^((-?\d)|--)/, '_$1')`: group 1 is the whole match, so a
      match is prefixed with `_` and the rest of the string is kept. */
  function Guarded(s: string): string
  {
    if NeedsGuard(s) then "_" + s else s
  }

  /** The three character replacements, in the order of the source. */
  function Sanitized(s: string): string
  {
    ReplaceClass(ReplaceClass(ReplaceClass(s, IsReserved, '-'), IsControl, '-'), IsDot, '-')
  }

  /** The name `escapeLocalIdent` hands to `escape`. */
  function Normalised(s: string): string
  {
    Sanitized(Guarded(s))
  }

  /** `escapeLocalIdent`. */
  function EscapeLocalIdent(s: string): string
  {
    CssEscape.Escaped(Normalised(s))
  }

  /** After the guard there is nothing left to guard, and the original
      string follows the optional `_`. */
  lemma GuardedGuards(s: string)
    ensures !NeedsGuard(Guarded(s))
    ensures Guarded(Guarded(s)) == Guarded(s)
    ensures Guarded(s) == s || Guarded(s) == "_" + s
    ensures Guarded(s) != s <==> NeedsGuard(s)
  {
  }

  /** The sanitised string has the same length; a reserved character, a
      control character or a dot becomes `-` and every other character is
      kept. */
  lemma SanitizedPointwise(s: string)
    ensures |Sanitized(s)| == |s|
    ensures forall i :: 0 <= i < |s| ==>
      Sanitized(s)[i] == (if IsReserved(s[i]) || IsControl(s[i]) || IsDot(s[i]) then '-' else s[i])
  {
    var a := ReplaceClass(s, IsReserved, '-');
    var b := ReplaceClass(a, IsControl, '-');
    ReplaceClassPointwise(s, IsReserved, '-');
    ReplaceClassPointwise(a, IsControl, '-');
    ReplaceClassPointwise(b, IsDot, '-');
  }

  /** What `escapeLocalIdent` promises about the name it escapes: no
      reserved filename character, no control character, no dot, and no
      leading digit; its length is that of the input plus the `_`. */
  lemma NormalisedIsSafe(s: string)
    ensures |Normalised(s)| == |s| + (if NeedsGuard(s) then 1 else 0)
    ensures forall i :: 0 <= i < |Normalised(s)| ==>
      var c := Normalised(s)[i]; !IsReserved(c) && !IsControl(c) && !IsDot(c)
    ensures Normalised(s) == [] || !IsDigit(Normalised(s)[0])
  {
    SanitizedPointwise(Guarded(s));
  }

  /** A name with none of the replaced characters and no leading digit,
      `-digit` or `--` goes to `escape` unchanged. */
  lemma NormalisedIdentity(s: string)
    requires !NeedsGuard(s)
    requires forall i :: 0 <= i < |s| ==> !IsReserved(s[i]) && !IsControl(s[i]) && !IsDot(s[i])
    ensures Normalised(s) == s
  {
    SanitizedPointwise(s);
  }

  /** Unescaping the identifier gives back the normalised name exactly. */
  lemma EscapeLocalIdentDecodes(s: string)
    ensures CssUnescape.Unescaped(EscapeLocalIdent(s)) == Normalised(s)
  {
    EscapeRoundTrip.UnescapeEscape(Normalised(s));
  }

  /** The escaped identifier starts neither with a digit nor with `-digit`
      or `--`. */
  lemma EscapeLocalIdentStart(s: string)
    ensures EscapeLocalIdent(s) == [] || !IsDigit(EscapeLocalIdent(s)[0])
    ensures !CssEscape.StartsWithDashDigitOrDash(EscapeLocalIdent(s))
  {
    EscapeTokens.EscapedCompact(Normalised(s));
    EscapeTokens.CompactValidStart(Normalised(s));
  }

  // ---------------------------------------------------------------------
  // The content string (src/getLocalIdent.js:54-56, 209-229)

  predicate IsBackslash(c: char) { c == '\\' }

  /** `normalizePath`: on a platform whose separator is `\`, every `\`
      becomes `/`; elsewhere the path is kept. */
  function NormalizePath(file: string, sep: char): (r: string)
    ensures |r| == |file|
    ensures sep == '\\' ==> forall i :: 0 <= i < |r| ==> r[i] == (if file[i] == '\\' then '/' else file[i])
    ensures sep != '\\' ==> r == file
  {
    if sep == '\\' then
      ReplaceClassPointwise(file, IsBackslash, '/');
      ReplaceClass(file, IsBackslash, '/')
    else file
  }

  /** `${relativeMatchResource}${relativeResourcePath}\u0000${localName}`. */
  function Content(relativeMatchResource: string, relativeResourcePath: string, localName: string): string
  {
    relativeMatchResource + relativeResourcePath + "\0" + localName
  }

  /** Where the first NUL of `w` is (`|w|` when there is none). */
  function NulIndex(w: string): (n: nat)
    ensures n <= |w|
  {
    if w == [] || w[0] == '\0' then 0 else 1 + NulIndex(w[1..])
  }

  lemma {:induction false} NulIndexAfter(path: string, rest: string)
    requires '\0' !in path
    ensures NulIndex(path + "\0" + rest) == |path|
  {
    if path != [] {
      assert (path + "\0" + rest)[1..] == path[1..] + "\0" + rest;
      NulIndexAfter(path[1..], rest);
    }
  }

  /** Two contents with the same match-resource part are equal only when
      their resource paths and local names are, as long as the paths hold
      no NUL: the NUL after the path tells where the local name begins. */
  lemma ContentDeterminesParts(prefix: string, path1: string, name1: string, path2: string, name2: string)
    requires '\0' !in path1 && '\0' !in path2
    requires Content(prefix, path1, name1) == Content(prefix, path2, name2)
    ensures path1 == path2 && name1 == name2
  {
    var w1 := path1 + "\0" + name1;
    var w2 := path2 + "\0" + name2;
    assert Content(prefix, path1, name1) == prefix + w1;
    assert Content(prefix, path2, name2) == prefix + w2;
    assert w1 == (prefix + w1)[|prefix|..];
    assert w2 == (prefix + w2)[|prefix|..];
    NulIndexAfter(path1, name1);
    NulIndexAfter(path2, name2);
    assert path1 == w1[..|path1|];
    assert path2 == w2[..|path2|];
    assert name1 == w1[|path1| + 1..];
    assert name2 == w2[|path2| + 1..];
  }

  // ---------------------------------------------------------------------
  // The digest (src/getLocalIdent.js:268-272)

  predicate IsPlusOrSlash(c: char) { c == '+' || c == '/' }

  /** `/^\d/g` as a matcher: with `^`, only a digit at position 0 matches. */
  function LeadingDigitEnds(s: string): (at: nat -> Option<nat>)
    ensures JsString.IsMatcher(s, at)
  {
    (p: nat) => if p == 0 && 0 < |s| && IsDigit(s[0]) then Some(1) else None
  }

  /** `s.replace(/^\d/g, '_')`. */
  function LeadingDigitReplaced(s: string): string
  {
    JsString.ReplaceMatchesFrom(s, LeadingDigitEnds(s), "_", 0)
  }

  /** Only a leading digit is replaced, by `_`; the rest is kept. */
  lemma LeadingDigitReplacedShape(s: string)
    ensures LeadingDigitReplaced(s) == (if 0 < |s| && IsDigit(s[0]) then "_" + s[1..] else s)
  {
    if s != [] {
      JsString.ReplaceMatchesFromNone(s, LeadingDigitEnds(s), "_", 1);
      assert s == [s[0]] + s[1..];
    }
  }

  /** The digest as `getLocalIdent` uses it: its first `length` characters,
      each `+` and `/` turned into `_`, then a leading digit turned into `_`. */
  function SafeDigest(digest: string, length: nat): (r: string)
    ensures |r| == (if length < |digest| then length else |digest|)
    ensures forall i :: 0 <= i < |r| ==> r[i] != '+' && r[i] != '/'
    ensures r == [] || !IsDigit(r[0])
    ensures forall i :: 0 < i < |r| ==> r[i] == (if IsPlusOrSlash(digest[i]) then '_' else digest[i])
    ensures r != [] ==> r[0] == (if IsDigit(digest[0]) || IsPlusOrSlash(digest[0]) then '_' else digest[0])
  {
    var sliced := JsString.Slice(digest, 0, length);
    assert sliced == digest[..if length < |digest| then length else |digest|];
    var mapped := ReplaceClass(sliced, IsPlusOrSlash, '_');
    ReplaceClassPointwise(sliced, IsPlusOrSlash, '_');
    LeadingDigitReplacedShape(mapped);
    LeadingDigitReplaced(mapped)
  }

  // ---------------------------------------------------------------------
  // The base name (src/getLocalIdent.js:277-279)

  /** `base.slice(0, base.length - ext.length)`: a prefix of the base name. */
  function BaseName(base: string, ext: string): (name: string)
    ensures |name| <= |base| && name == base[..|name|]
  {
    JsString.Slice(base, 0, |base| - |ext|)
  }

  /** When the extension ends the base name, as `path.extname` and
      `path.basename` guarantee, it is exactly what is cut off. */
  lemma BaseNameStripsExtension(name: string, ext: string)
    ensures BaseName(name + ext, ext) == name
  {
    assert (name + ext)[..|name|] == name;
  }

  // ---------------------------------------------------------------------
  // `[local]` and `[N]` (src/getLocalIdent.js:290-300)

  /** `ident.replace(/\[local]/gi, localName)`: `localName` is a
      replacement pattern, so `$$`, `$&`, `` $` `` and `$'` in it are
      expanded. */
  function SubstituteLocal(ident: string, localName: string): string
  {
    JsString.ReplaceAll(ident, "[local]", localName)
  }

  /** `new RegExp(`\\[${i}\\]`, 'ig')`: `[`, the decimal digits of `i`, `]`. */
  function IndexPattern(i: nat): (p: string)
    ensures |p| >= 3 && p[0] == '['
  {
    "[" + DecimalString(i) + "]"
  }

  /** A group of the match as a replacement: one that did not take part in
      the match is `undefined`, which `replace` turns into that word. */
  function GroupText(g: Option<string>): string
  {
    if g.Some? then g.value else "undefined"
  }

  /** `ident` after the first `n` turns of `match.forEach`: turn `i`
      replaces every `[i]` by the text of group `i`. */
  function SubstituteIndexed(ident: string, groups: seq<Option<string>>, n: nat): string
    requires n <= |groups|
  {
    if n == 0 then ident
    else JsString.ReplaceAll(SubstituteIndexed(ident, groups, n - 1), IndexPattern(n - 1), GroupText(groups[n - 1]))
  }

  /** A pattern starting with `[` does not occur in a string without `[`:
      case folding maps no other character onto `[`. */
  lemma NoBracketNoMatch(s: string, pat: string)
    requires |pat| > 0 && pat[0] == '[' && '[' !in s
    ensures forall q :: 0 <= q < |s| ==> !JsString.MatchesAt(s, pat, q)
  {
    forall q | 0 <= q < |s|
      ensures !JsString.MatchesAt(s, pat, q)
    {
      assert JsString.MatchesAt(s, pat, q) ==> FoldCase(s[q + 0]) == FoldCase(pat[0]);
    }
  }

  /** An identifier without `[` has no `[local]` to substitute. */
  lemma SubstituteLocalNoBracket(ident: string, localName: string)
    requires '[' !in ident
    ensures SubstituteLocal(ident, localName) == ident
  {
    NoBracketNoMatch(ident, "[local]");
    JsString.ReplaceAllNoMatch(ident, "[local]", localName);
  }

  /** A leading `[local]`, in any case, is replaced by a local name without
      `$`; a rest without `[local]` is kept. */
  lemma SubstituteLocalLeading(ident: string, localName: string)
    requires |ident| >= 7 && JsString.MatchesAt(ident, "[local]", 0) && JsString.NoDollar(localName)
    requires forall q :: 7 <= q < |ident| ==> !JsString.MatchesAt(ident, "[local]", q)
    ensures SubstituteLocal(ident, localName) == localName + ident[7..]
  {
    JsString.ReplaceAllFromFirstMatch(ident, "[local]", localName, 0, 0);
    JsString.ReplaceAllFromNoMatch(ident, "[local]", localName, 7);
    assert ident[0..0] == [];
  }

  /** Group texts without `[` cannot create a `[N]`: an identifier
      without `[` goes through every turn unchanged. */
  lemma {:induction false} SubstituteIndexedNoBracket(ident: string, groups: seq<Option<string>>, n: nat)
    requires n <= |groups| && '[' !in ident
    ensures SubstituteIndexed(ident, groups, n) == ident
  {
    if n > 0 {
      SubstituteIndexedNoBracket(ident, groups, n - 1);
      NoBracketNoMatch(ident, IndexPattern(n - 1));
      JsString.ReplaceAllNoMatch(ident, IndexPattern(n - 1), GroupText(groups[n - 1]));
    }
  }

  /** Two different indices give patterns that differ, under case
      folding, at a position both have. */
  lemma IndexPatternsDiffer(i: nat, j: nat) returns (k: nat)
    requires i != j
    ensures k < |IndexPattern(i)| && k < |IndexPattern(j)|
    ensures FoldCase(IndexPattern(i)[k]) != FoldCase(IndexPattern(j)[k])
  {
    var di, dj := DecimalString(i), DecimalString(j);
    if |di| < |dj| {
      k := |di| + 1;
      assert IndexPattern(j)[k] == dj[|di|];
    } else if |dj| < |di| {
      k := |dj| + 1;
      assert IndexPattern(i)[k] == di[|dj|];
    } else {
      assert DecimalValue(di) != DecimalValue(dj);
      assert di != dj;
      assert exists m :: 0 <= m < |di| && di[m] != dj[m];
      var m :| 0 <= m < |di| && di[m] != dj[m];
      k := m + 1;
      assert IndexPattern(i)[k] == di[m] && IndexPattern(j)[k] == dj[m];
    }
  }

  /** In an identifier whose only `[` opens `[i]`, no other index's
      pattern occurs. */
  lemma IndexPatternOnlyAt(x: string, i: nat, y: string, j: nat)
    requires '[' !in x && '[' !in y && j != i
    ensures forall q :: 0 <= q < |x + IndexPattern(i) + y| ==> !JsString.MatchesAt(x + IndexPattern(i) + y, IndexPattern(j), q)
  {
    var s := x + IndexPattern(i) + y;
    var pat := IndexPattern(j);
    forall q | 0 <= q < |s|
      ensures !JsString.MatchesAt(s, pat, q)
    {
      if q == |x| {
        var k := IndexPatternsDiffer(i, j);
        assert s[q + k] == IndexPattern(i)[k];
      } else {
        assert s[q] != '[' by {
          if q < |x| {
            assert s[q] == x[q];
          } else if q < |x| + |IndexPattern(i)| {
            assert s[q] == IndexPattern(i)[q - |x|];
          } else {
            assert s[q] == y[q - |x| - |IndexPattern(i)|];
          }
        }
        NotAtNonBracket(s, pat, q);
      }
    }
  }

  /** A `[`-led pattern does not occur where the string holds no `[`. */
  lemma NotAtNonBracket(s: string, pat: string, q: nat)
    requires |pat| > 0 && pat[0] == '[' && q < |s| && s[q] != '['
    ensures !JsString.MatchesAt(s, pat, q)
  {
    assert JsString.MatchesAt(s, pat, q) ==> FoldCase(s[q + 0]) == FoldCase(pat[0]);
  }

  /** The turn of index `i` replaces its only `[i]` by the group text. */
  lemma IndexedTurnAt(x: string, i: nat, y: string, t: string)
    requires '[' !in x && '[' !in y && JsString.NoDollar(t)
    ensures JsString.ReplaceAll(x + IndexPattern(i) + y, IndexPattern(i), t) == x + t + y
  {
    ReplaceSingleOccurrence(x, IndexPattern(i), y, t);
  }

  /** A `[`-led pattern that is the only `[` of the string is replaced
      once. */
  lemma ReplaceSingleOccurrence(x: string, pat: string, y: string, t: string)
    requires |pat| > 0 && pat[0] == '[' && '[' !in x && '[' !in y && JsString.NoDollar(t)
    ensures JsString.ReplaceAll(x + pat + y, pat, t) == x + t + y
  {
    NoneBefore(x, pat, y);
    NoneAfter(x, pat, y);
    PatternAt(x, pat, y);
    JsString.ReplaceAllSingle(x + pat + y, pat, t, |x|);
    assert (x + pat + y)[..|x|] == x;
    assert (x + pat + y)[|x| + |pat|..] == y;
  }

  lemma NoneBefore(x: string, pat: string, y: string)
    requires |pat| > 0 && pat[0] == '[' && '[' !in x
    ensures forall q :: 0 <= q < |x| ==> !JsString.MatchesAt(x + pat + y, pat, q)
  {
    forall q | 0 <= q < |x|
      ensures !JsString.MatchesAt(x + pat + y, pat, q)
    {
      assert (x + pat + y)[q] == x[q];
      NotAtNonBracket(x + pat + y, pat, q);
    }
  }

  lemma NoneAfter(x: string, pat: string, y: string)
    requires |pat| > 0 && pat[0] == '[' && '[' !in y
    ensures forall q :: |x| + |pat| <= q < |x + pat + y| ==> !JsString.MatchesAt(x + pat + y, pat, q)
  {
    forall q | |x| + |pat| <= q < |x + pat + y|
      ensures !JsString.MatchesAt(x + pat + y, pat, q)
    {
      assert (x + pat + y)[q] == y[q - |x| - |pat|];
      NotAtNonBracket(x + pat + y, pat, q);
    }
  }

  lemma PatternAt(x: string, pat: string, y: string)
    requires |pat| > 0
    ensures JsString.MatchesAt(x + pat + y, pat, |x|)
  {
    var s := x + pat + y;
    forall k | 0 <= k < |pat| ensures s[|x| + k] == pat[k] { }
  }

  /** The turns before `i` on an identifier whose only `[` opens `[i]`
      change nothing. */
  lemma {:induction false} SubstituteIndexedBefore(x: string, i: nat, y: string, groups: seq<Option<string>>, n: nat)
    requires n <= i < |groups| && '[' !in x && '[' !in y
    ensures SubstituteIndexed(x + IndexPattern(i) + y, groups, n) == x + IndexPattern(i) + y
    decreases n
  {
    if n > 0 {
      SubstituteIndexedBefore(x, i, y, groups, n - 1);
      IndexedTurnElsewhere(x, i, y, n - 1, GroupText(groups[n - 1]));
    }
  }

  /** Turn `i` substitutes its group, and the turns after it find no `[`
      left. */
  lemma {:induction false} SubstituteIndexedAfter(x: string, i: nat, y: string, groups: seq<Option<string>>, n: nat)
    requires i < n <= |groups| && '[' !in x && '[' !in y
    requires '[' !in GroupText(groups[i]) && JsString.NoDollar(GroupText(groups[i]))
    ensures SubstituteIndexed(x + IndexPattern(i) + y, groups, n) == x + GroupText(groups[i]) + y
    decreases n
  {
    if n == i + 1 {
      SubstituteIndexedBefore(x, i, y, groups, i);
      IndexedTurnAt(x, i, y, GroupText(groups[i]));
    } else {
      SubstituteIndexedAfter(x, i, y, groups, n - 1);
      IndexedTurnNoBracket(x + GroupText(groups[i]) + y, n - 1, GroupText(groups[n - 1]));
    }
  }

  /** The turn of another index leaves the identifier unchanged. */
  lemma IndexedTurnElsewhere(x: string, i: nat, y: string, j: nat, t: string)
    requires '[' !in x && '[' !in y && j != i
    ensures JsString.ReplaceAll(x + IndexPattern(i) + y, IndexPattern(j), t) == x + IndexPattern(i) + y
  {
    IndexPatternOnlyAt(x, i, y, j);
    JsString.ReplaceAllNoMatch(x + IndexPattern(i) + y, IndexPattern(j), t);
  }

  /** A turn on a text without `[` leaves it unchanged. */
  lemma IndexedTurnNoBracket(z: string, j: nat, t: string)
    requires '[' !in z
    ensures JsString.ReplaceAll(z, IndexPattern(j), t) == z
  {
    NoBracketNoMatch(z, IndexPattern(j));
    JsString.ReplaceAllNoMatch(z, IndexPattern(j), t);
  }

  /** All the turns of `match.forEach` on an identifier with a single
      `[i]`: it becomes the text of group `i`, or `undefined` when that
      group did not take part in the match. */
  lemma SubstituteGroupsSingle(x: string, i: nat, y: string, groups: seq<Option<string>>)
    requires i < |groups| && '[' !in x && '[' !in y
    requires '[' !in GroupText(groups[i]) && JsString.NoDollar(GroupText(groups[i]))
    ensures SubstituteIndexed(x + IndexPattern(i) + y, groups, |groups|)
         == x + (if groups[i].Some? then groups[i].value else "undefined") + y
  {
    SubstituteIndexedAfter(x, i, y, groups, |groups|);
  }

  // ---------------------------------------------------------------------
  // The foreign calls and the values passed to them

  /** `data.chunk` of the object handed to `getPath`. */
  datatype Chunk = Chunk(contentHash: string, hash: string, name: string)

  /** The object handed to `getPath` (src/getLocalIdent.js:280-288). */
  datatype PathData = PathData(chunk: Chunk, contentHash: string, filename: string)

  /** The loader context: the resource path and, when the module has one,
      its match resource (`_module.matchResource`). */
  datatype LoaderContext = LoaderContext(resourcePath: string, matchResource: Option<string>)

  /** What `getLocalIdent` calls but does not define:
      - `sep`, `relative`, `extname`, `basename`: Node's `path`;
      - `digest(f, updates, encoding)`: `createHash(f)`, one `update` per
        element of `updates` in order, then `digest(encoding)`;
      - `getPath`: webpack's template expander;
      - `matchRegExp(re, s)`: `s.match(re)`, its groups in order, `None`
        for a group that did not take part. */
  datatype Host = Host(
    sep: char,
    relative: (string, string) -> string,
    extname: string -> string,
    basename: string -> string,
    digest: (string, seq<string>, string) -> string,
    getPath: (string, PathData) -> string,
    matchRegExp: (string, string) -> Option<seq<Option<string>>>)

  /** The options `getLocalIdent` reads. An empty `hashSalt` or `regExp`
      is falsy, as is an absent one. */
  datatype IdentOptions = IdentOptions(
    context: string,
    hashFunction: string,
    hashDigest: string,
    hashDigestLength: nat,
    hashSalt: string,
    regExp: string)

  /** `relativeMatchResource`: empty unless the module has a non-empty
      match resource, then its normalised relative path and a NUL. */
  function RelativeMatchResource(host: Host, context: string, lc: LoaderContext): string
  {
    if lc.matchResource.Some? && lc.matchResource.value != "" then
      NormalizePath(host.relative(context, lc.matchResource.value), host.sep) + "\0"
    else ""
  }

  /** The value `getLocalIdent` stores in `options.content`. */
  function ContentOf(host: Host, lc: LoaderContext, localName: string, o: IdentOptions): string
  {
    Content(RelativeMatchResource(host, o.context, lc),
      NormalizePath(host.relative(o.context, lc.resourcePath), host.sep), localName)
  }

  /** What is fed to the hash: the salt, when it is truthy, then the content. */
  function HashUpdates(hashSalt: string, content: string): seq<string>
  {
    (if hashSalt != "" then [hashSalt] else []) + [content]
  }

  /** The salt is hashed exactly when it is not empty, and the content
      always comes last. */
  lemma HashUpdatesSalt(hashSalt: string, content: string)
    ensures hashSalt == "" ==> HashUpdates(hashSalt, content) == [content]
    ensures hashSalt != "" ==> HashUpdates(hashSalt, content) == [hashSalt, content]
    ensures HashUpdates(hashSalt, content)[|HashUpdates(hashSalt, content)| - 1] == content
  {
  }

  /** `localIdentHash`. */
  function IdentHash(host: Host, content: string, hashSalt: string, h: HashPlaceholder.HashSettings): string
  {
    SafeDigest(host.digest(h.hashFunction, HashUpdates(hashSalt, content), h.hashDigest), h.hashDigestLength)
  }

  function PathDataOf(host: Host, lc: LoaderContext, o: IdentOptions, hash: string): PathData
  {
    var name := BaseName(host.basename(lc.resourcePath), host.extname(lc.resourcePath));
    PathData(Chunk(hash, hash, name), hash, host.relative(o.context, lc.resourcePath))
  }

  /** The `[N]` step: it runs only for a truthy `regExp` that matches the
      resource path. */
  function IndexedStep(host: Host, lc: LoaderContext, o: IdentOptions, ident: string): string
  {
    if o.regExp == "" then ident
    else match host.matchRegExp(o.regExp, lc.resourcePath)
      case None => ident
      case Some(groups) => SubstituteIndexed(ident, groups, |groups|)
  }

  /** The identifier before `escapeLocalIdent`. */
  function Interpolated(host: Host, lc: LoaderContext, localIdentName: string, localName: string, o: IdentOptions): string
  {
    var content := ContentOf(host, lc, localName, o);
    var placed := HashPlaceholder.ApplyPlaceholders(localIdentName,
      HashPlaceholder.HashSettings(o.hashFunction, o.hashDigest, o.hashDigestLength));
    var hash := IdentHash(host, content, o.hashSalt, placed.1);
    IndexedStep(host, lc, o, SubstituteLocal(host.getPath(placed.0, PathDataOf(host, lc, o, hash)), localName))
  }

  /** What `getLocalIdent` returns. */
  function LocalIdentOf(host: Host, lc: LoaderContext, localIdentName: string, localName: string, o: IdentOptions): string
  {
    EscapeLocalIdent(Interpolated(host, lc, localIdentName, localName, o))
  }

  // ---------------------------------------------------------------------
  // Properties of the whole

  /** Whatever the foreign calls return, the identifier decodes to a name
      with no reserved filename character, no control character, no dot
      and no leading digit. */
  lemma LocalIdentIsSafe(host: Host, lc: LoaderContext, localIdentName: string, localName: string, o: IdentOptions)
    ensures var decoded := CssUnescape.Unescaped(LocalIdentOf(host, lc, localIdentName, localName, o));
      decoded == Normalised(Interpolated(host, lc, localIdentName, localName, o))
      && (forall i :: 0 <= i < |decoded| ==> !IsReserved(decoded[i]) && !IsControl(decoded[i]) && !IsDot(decoded[i]))
      && (decoded == [] || !IsDigit(decoded[0]))
  {
    EscapeLocalIdentDecodes(Interpolated(host, lc, localIdentName, localName, o));
    NormalisedIsSafe(Interpolated(host, lc, localIdentName, localName, o));
  }

  /** With an empty `regExp` the match of the resource path is never
      consulted: any matcher gives the same identifier. */
  lemma EmptyRegExpIgnoresMatch(host: Host, lc: LoaderContext, localIdentName: string, localName: string, o: IdentOptions,
                                other: (string, string) -> Option<seq<Option<string>>>)
    requires o.regExp == ""
    ensures LocalIdentOf(host.(matchRegExp := other), lc, localIdentName, localName, o)
         == LocalIdentOf(host, lc, localIdentName, localName, o)
  {
  }

  /** With an empty salt the hash only sees the content: any salt handling
      of the hash gives the same identifier as long as it agrees on the
      single update. */
  lemma EmptySaltHashesContentOnly(host: Host, lc: LoaderContext, localIdentName: string, localName: string, o: IdentOptions,
                                   other: (string, seq<string>, string) -> string)
    requires o.hashSalt == ""
    requires forall f, c, e :: other(f, [c], e) == host.digest(f, [c], e)
    ensures LocalIdentOf(host.(digest := other), lc, localIdentName, localName, o)
         == LocalIdentOf(host, lc, localIdentName, localName, o)
  {
    HashUpdatesSalt(o.hashSalt, ContentOf(host, lc, localName, o));
  }

  // ---------------------------------------------------------------------
  // `getLocalIdent` itself (src/getLocalIdent.js:203-303)

  /** The options object passed to `getLocalIdent`, which sets its
      `content` (absent until then). */
  class LocalIdentOptions {
    var context: string
    var hashFunction: string
    var hashDigest: string
    var hashDigestLength: nat
    var hashSalt: string
    var regExp: string
    var content: Option<string>

    constructor (o: IdentOptions)
      ensures Settings() == o && content.None?
    {
      context, hashFunction, hashDigest := o.context, o.hashFunction, o.hashDigest;
      hashDigestLength, hashSalt, regExp := o.hashDigestLength, o.hashSalt, o.regExp;
      content := None;
    }

    /** The fields `getLocalIdent` reads. */
    function Settings(): IdentOptions
      reads this
    {
      IdentOptions(context, hashFunction, hashDigest, hashDigestLength, hashSalt, regExp)
    }
  }

  /** `getLocalIdent`: sets `options.content` and returns the escaped
      identifier, leaving the options it reads as they were. */
  method GetLocalIdent(host: Host, loaderContext: LoaderContext, localIdentName: string, localName: string,
                       options: LocalIdentOptions)
    returns (ident: string)
    modifies options
    ensures options.Settings() == old(options.Settings())
    ensures options.content == Some(ContentOf(host, loaderContext, localName, options.Settings()))
    ensures ident == LocalIdentOf(host, loaderContext, localIdentName, localName, options.Settings())
  {
    SetContent(host, loaderContext, localName, options);
    var template, settings := PlaceHashes(localIdentName,
      HashPlaceholder.HashSettings(options.hashFunction, options.hashDigest, options.hashDigestLength));
    var localIdentHash := HashContent(host, options.content.value, options.hashSalt, settings);

    var resourcePath := loaderContext.resourcePath;
    var ext := host.extname(resourcePath);
    var base := host.basename(resourcePath);
    var name := BaseName(base, ext);
    var data := PathData(Chunk(localIdentHash, localIdentHash, name), localIdentHash, host.relative(options.context, resourcePath));
    assert data == PathDataOf(host, loaderContext, options.Settings(), localIdentHash);

    ident := SubstituteLocal(host.getPath(template, data), localName);
    if options.regExp != "" {
      var resourceMatch := host.matchRegExp(options.regExp, resourcePath);
      if resourceMatch.Some? {
        ident := SubstituteGroups(ident, resourceMatch.value);
      }
    }
    ident := CssEscape.Escape(Normalised(ident));
  }

  /** Lines 209-229: the content string, stored in `options.content`. */
  method SetContent(host: Host, loaderContext: LoaderContext, localName: string, options: LocalIdentOptions)
    modifies options
    ensures options.Settings() == old(options.Settings())
    ensures options.content == Some(ContentOf(host, loaderContext, localName, options.Settings()))
  {
    var relativeMatchResource := "";
    var context := options.context;
    if loaderContext.matchResource.Some? && loaderContext.matchResource.value != "" {
      relativeMatchResource := NormalizePath(host.relative(context, loaderContext.matchResource.value), host.sep) + "\0";
    }
    var relativeResourcePath := NormalizePath(host.relative(context, loaderContext.resourcePath), host.sep);
    options.content := Some(relativeMatchResource + relativeResourcePath + "\0" + localName);
  }

  /** Lines 231-257: the first placeholder overrides the settings it
      names, then every placeholder is rewritten. */
  method PlaceHashes(localIdentName: string, h: HashPlaceholder.HashSettings)
    returns (template: string, settings: HashPlaceholder.HashSettings)
    ensures (template, settings) == HashPlaceholder.ApplyPlaceholders(localIdentName, h)
  {
    var hashFunction, hashDigest, hashDigestLength := h.hashFunction, h.hashDigest, h.hashDigestLength;
    template := localIdentName;
    var mathes := HashPlaceholder.FirstMatch(template);
    if mathes.Some? {
      var hashName := mathes.value.name;
      if mathes.value.algorithm.Some? {
        hashFunction := mathes.value.algorithm.value;
      }
      if mathes.value.digest.Some? {
        hashDigest := mathes.value.digest.value;
      }
      if mathes.value.length.Some? {
        hashDigestLength := mathes.value.length.value;
      }
      template := HashPlaceholder.Rewrite(template, HashPlaceholder.Replacement(hashName));
    }
    settings := HashPlaceholder.HashSettings(hashFunction, hashDigest, hashDigestLength);
  }

  /** Lines 259-272: the salt when it is truthy, then the content, are
      hashed; the digest is cut and made safe. */
  method HashContent(host: Host, content: string, hashSalt: string, h: HashPlaceholder.HashSettings)
    returns (localIdentHash: string)
    ensures localIdentHash == IdentHash(host, content, hashSalt, h)
  {
    var updates := [];
    if hashSalt != "" {
      updates := updates + [hashSalt];
    }
    updates := updates + [content];
    assert updates == HashUpdates(hashSalt, content);
    localIdentHash := SafeDigest(host.digest(h.hashFunction, updates, h.hashDigest), h.hashDigestLength);
  }

  /** Lines 296-298: turn `i` of `forEach` replaces every `[i]` by the
      text of group `i`. */
  method SubstituteGroups(ident: string, groups: seq<Option<string>>) returns (r: string)
    ensures r == SubstituteIndexed(ident, groups, |groups|)
  {
    r := ident;
    for i := 0 to |groups|
      invariant r == SubstituteIndexed(ident, groups, i)
    {
      r := JsString.ReplaceAll(r, IndexPattern(i), GroupText(groups[i]));
    }
  }
}
