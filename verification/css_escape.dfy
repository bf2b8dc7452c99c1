/** `escape` of src/getLocalIdent.js: turning an arbitrary string into a CSS
    identifier in three steps — per-character re-encoding, the fix-up of a
    leading `-` or digit, and the removal of spaces made redundant after
    hexadecimal escapes. */
module CssEscape {
  import opened Chars
  import opened Wrappers

  /** `/[\t\n\u000B\f\r]/`: the characters written as hexadecimal escapes. */
  predicate IsEscapedControl(c: char)
  {
    c == '\t' || c == '\n' || c as int == 0x0B || c as int == 0x0C || c == '\r'
  }

  /** `regexSingleEscape = /[ -,./:-@[\]^`{-~]/`: the characters written as
      a backslash followed by the character itself. */
  predicate IsSingleEscape(c: char)
  {
    (' ' <= c <= ',') || c == '.' || c == '/' || (':' <= c <= '@')
    || c == '[' || c == ']' || c == '^' || c == '`' || ('{' <= c <= '~')
  }

  // ---------------------------------------------------------------------
  // Step 1: per-character re-encoding

  /** What the loop appends for one input character. */
  function EscapeChar(c: char): string
  {
    if IsEscapedControl(c) then ['\\'] + UpperHex(c as int) + [' ']
    else if c == '\\' || IsSingleEscape(c) then ['\\', c]
    else [c]
  }

  /** The output of the loop: every character re-encoded on its own. */
  function EscapeChars(s: string): string
  {
    if s == [] then [] else EscapeChar(s[0]) + EscapeChars(s[1..])
  }

  /** Re-encoding is done character by character, so it distributes over
      concatenation. */
  lemma {:induction false} EscapeCharsAppend(a: string, b: string)
    ensures EscapeChars(a + b) == EscapeChars(a) + EscapeChars(b)
  {
    if a == [] {
      assert a + b == b;
    } else {
      assert (a + b)[1..] == a[1..] + b;
      EscapeCharsAppend(a[1..], b);
    }
  }

  /** The three cases of the re-encoding of one character: a control
      character becomes `\`, its upper-case hexadecimal code and a space; a
      backslash or single-escape character gets a backslash in front; every
      other character is copied. */
  lemma EscapeCharCases(c: char)
    ensures IsEscapedControl(c) ==>
      var e := EscapeChar(c);
      |e| == 3 && e[0] == '\\' && IsUpperHex(e[1]) && HexDigitValue(e[1]) == c as int && e[2] == ' '
    ensures !IsEscapedControl(c) && (c == '\\' || IsSingleEscape(c)) ==> EscapeChar(c) == ['\\', c]
    ensures !IsEscapedControl(c) && c != '\\' && !IsSingleEscape(c) ==> EscapeChar(c) == [c]
  {
    if IsEscapedControl(c) {
      assert UpperHex(c as int) == [UpperHexDigit(c as int)];
    }
  }

  /** The first character of the re-encoding of `c` is `c` itself or a
      backslash, it is a digit or `-` exactly when `c` is (those are copied),
      and a re-encoding never starts with a raw space. */
  lemma EscapeCharHead(c: char)
    ensures |EscapeChar(c)| >= 1
    ensures EscapeChar(c)[0] == c || EscapeChar(c)[0] == '\\'
    ensures IsDigit(EscapeChar(c)[0]) || EscapeChar(c)[0] == '-' <==> IsDigit(c) || c == '-'
    ensures EscapeChar(c)[0] != ' '
  {
  }

  // ---------------------------------------------------------------------
  // Step 2: leading `-` or digit

  /** `output.slice(1)`. */
  function Tail(o: string): string
  {
    if o == [] then [] else o[1..]
  }

  /** `/^-[\d-]/.test(output)`. */
  predicate StartsWithDashDigitOrDash(o: string)
  {
    |o| >= 2 && o[0] == '-' && (IsDigit(o[1]) || o[1] == '-')
  }

  /** The fix-up of the loop's `output` for the input `s`. */
  function FixLeading(s: string, output: string): string
  {
    if StartsWithDashDigitOrDash(output) then ['\\', '-'] + Tail(output)
    else if |s| >= 1 && IsDigit(s[0]) then ['\\', '3', s[0], ' '] + Tail(output)
    else output
  }

  // ---------------------------------------------------------------------
  // Step 3: `output.replace(regexExcessiveSpaces, ...)` with
  // regexExcessiveSpaces = /(^|\\+)?(\\[\dA-F]{1,6}) (?![\d A-Fa-f])/g

  /** The lookahead class `[\d A-Fa-f]`. */
  predicate IsHexOrSpace(c: char) { IsHexDigit(c) || c == ' ' }

  /** Length of the run of backslashes starting at `p`. */
  function BackslashesFrom(o: string, p: nat): (n: nat)
    requires p <= |o|
    ensures p + n <= |o|
    ensures p + n < |o| ==> o[p + n] != '\\'
    decreases |o| - p
  {
    if p < |o| && o[p] == '\\' then 1 + BackslashesFrom(o, p + 1) else 0
  }

  lemma {:induction false} BackslashesFromAll(o: string, p: nat)
    requires p <= |o|
    ensures forall j :: p <= j < p + BackslashesFrom(o, p) ==> o[j] == '\\'
    decreases |o| - p
  {
    if p < |o| && o[p] == '\\' {
      BackslashesFromAll(o, p + 1);
    }
  }

  /** Length of the run of `[\dA-F]` characters starting at `p`. */
  function UpperHexFrom(o: string, p: nat): (n: nat)
    requires p <= |o|
    ensures p + n <= |o|
    ensures p + n < |o| ==> !IsUpperHex(o[p + n])
    decreases |o| - p
  {
    if p < |o| && IsUpperHex(o[p]) then 1 + UpperHexFrom(o, p + 1) else 0
  }

  lemma {:induction false} UpperHexFromAll(o: string, p: nat)
    requires p <= |o|
    ensures forall j :: p <= j < p + UpperHexFrom(o, p) ==> IsUpperHex(o[j])
    decreases |o| - p
  {
    if p < |o| && IsUpperHex(o[p]) {
      UpperHexFromAll(o, p + 1);
    }
  }

  /** `(\\[\dA-F]{1,6}) (?![\d A-Fa-f])` tried at `q`: the end of the match,
      just past its space. The digits are greedy; a shorter digit run is
      followed by another digit rather than by the space, so backtracking
      into the digits never finds a match the greedy count misses. */
  function HexEscapeAt(o: string, q: nat): (e: Option<nat>)
    requires q <= |o|
    ensures e.Some? ==> q + 3 <= e.value <= |o| && o[e.value - 1] == ' '
  {
    if q < |o| && o[q] == '\\' then
      var run := UpperHexFrom(o, q + 1);
      var h := if run < 6 then run else 6;
      if 1 <= h && q + 1 + h < |o| && o[q + 1 + h] == ' '
         && (q + 2 + h == |o| || !IsHexOrSpace(o[q + 2 + h]))
      then Some(q + 2 + h)
      else None
    else None
  }

  /** A match of the whole expression: `bb` is the length of group 1 (0 when
      it is empty or did not participate, both falsy in the callback) and
      the match is `o[p..end]`. */
  datatype SpaceMatch = SpaceMatch(bb: nat, end: nat)

  /** The whole expression tried at `p`, alternatives in the order the
      regular-expression engine tries them: group 1 as `^`, group 1 as
      `\\+`, group 1 skipped. `\\+` is greedy but must leave the escape's
      own backslash, so the only length that can succeed is the run minus
      one. */
  function ExcessiveSpaceAt(o: string, p: nat): (m: Option<SpaceMatch>)
    requires p <= |o|
    ensures m.Some? ==> p + 3 <= m.value.end <= |o| && o[m.value.end - 1] == ' '
  {
    var n := BackslashesFrom(o, p);
    if p == 0 && HexEscapeAt(o, 0).Some? then Some(SpaceMatch(0, HexEscapeAt(o, 0).value))
    else if n >= 2 && HexEscapeAt(o, p + n - 1).Some? then
      Some(SpaceMatch(n - 1, HexEscapeAt(o, p + n - 1).value))
    else if HexEscapeAt(o, p).Some? then Some(SpaceMatch(0, HexEscapeAt(o, p).value))
    else None
  }

  /** The global replacement scanned from `p`: a match whose group 1 has odd
      length is kept whole, any other match loses its final space; the
      scan resumes after the match. */
  function RemoveExcessiveSpaces(o: string, p: nat): string
    requires p <= |o|
    decreases |o| - p
  {
    if p == |o| then []
    else match ExcessiveSpaceAt(o, p)
      case Some(m) =>
        (if m.bb % 2 == 1 then o[p..m.end] else o[p..m.end - 1]) + RemoveExcessiveSpaces(o, m.end)
      case None => [o[p]] + RemoveExcessiveSpaces(o, p + 1)
  }

  // ---------------------------------------------------------------------
  // Step 3, stated position by position

  /** Length of the run of backslashes ending just before `i`. */
  function BackslashesBefore(o: string, i: nat): (n: nat)
    requires i <= |o|
    ensures n <= i
    ensures n < i ==> o[i - n - 1] != '\\'
  {
    if i > 0 && o[i - 1] == '\\' then 1 + BackslashesBefore(o, i - 1) else 0
  }

  lemma {:induction false} BackslashesBeforeAll(o: string, i: nat)
    requires i <= |o|
    ensures forall j :: i - BackslashesBefore(o, i) <= j < i ==> o[j] == '\\'
  {
    if i > 0 && o[i - 1] == '\\' {
      BackslashesBeforeAll(o, i - 1);
    }
  }

  /** Length of the run of `[\dA-F]` characters ending just before `i`. */
  function UpperHexBefore(o: string, i: nat): (n: nat)
    requires i <= |o|
    ensures n <= i
    ensures n < i ==> !IsUpperHex(o[i - n - 1])
  {
    if i > 0 && IsUpperHex(o[i - 1]) then 1 + UpperHexBefore(o, i - 1) else 0
  }

  lemma {:induction false} UpperHexBeforeAll(o: string, i: nat)
    requires i <= |o|
    ensures forall j :: i - UpperHexBefore(o, i) <= j < i ==> IsUpperHex(o[j])
  {
    if i > 0 && IsUpperHex(o[i - 1]) {
      UpperHexBeforeAll(o, i - 1);
    }
  }

  /** The space at `i` ends a `\` + 1–6 upper-case hexadecimal digits escape,
      the run of backslashes in front of those digits has odd length (so
      its last backslash starts an escape rather than being escaped
      itself), and the next character is neither a hexadecimal digit nor a
      space (nor is there one). */
  predicate RedundantSpace(o: string, i: nat)
    requires i < |o|
  {
    var m := UpperHexBefore(o, i);
    o[i] == ' ' && 1 <= m <= 6 && m < i && o[i - m - 1] == '\\'
    && BackslashesBefore(o, i - m) % 2 == 1
    && (i + 1 == |o| || !IsHexOrSpace(o[i + 1]))
  }

  /** `o[p..]` without its redundant spaces. */
  function WithoutRedundantSpaces(o: string, p: nat): string
    requires p <= |o|
    decreases |o| - p
  {
    if p == |o| then []
    else (if RedundantSpace(o, p) then [] else [o[p]]) + WithoutRedundantSpaces(o, p + 1)
  }

  /** Where the backslash run of the escape ending at `i` begins. */
  function EscapeRunStart(o: string, i: nat): int
    requires i < |o|
  {
    var m := UpperHexBefore(o, i);
    i - m - BackslashesBefore(o, i - m)
  }

  /** The shape around a redundant space: a run of an odd number of
      backslashes starting at `EscapeRunStart` and not preceded by another
      backslash, then 1–6 hexadecimal digits, then the space. */
  lemma RedundantSpaceShape(o: string, i: nat)
    requires i < |o| && RedundantSpace(o, i)
    ensures var m := UpperHexBefore(o, i);
      var r := BackslashesBefore(o, i - m);
      var s := EscapeRunStart(o, i);
      && 1 <= m <= 6 && r % 2 == 1 && s == i - m - r && 0 <= s
      && (forall j :: s <= j < i - m ==> o[j] == '\\')
      && (forall j :: i - m <= j < i ==> IsUpperHex(o[j]))
      && (s == 0 || o[s - 1] != '\\')
      && (i + 1 == |o| || !IsHexOrSpace(o[i + 1]))
  {
    UpperHexBeforeAll(o, i);
    BackslashesBeforeAll(o, i - UpperHexBefore(o, i));
  }

  /** `o[p..k] + x` taken apart at its first character. */
  lemma ConsAppend(o: string, p: nat, k: nat, x: string)
    requires p < k <= |o|
    ensures [o[p]] + (o[p + 1..k] + x) == o[p..k] + x
  {
    assert o[p..k] == [o[p]] + o[p + 1..k];
  }

  /** A stretch without spaces is copied as it is. */
  lemma {:induction false} WithoutRedundantSpacesCopies(o: string, p: nat, k: nat)
    requires p <= k <= |o|
    requires forall j :: p <= j < k ==> o[j] != ' '
    ensures WithoutRedundantSpaces(o, p) == o[p..k] + WithoutRedundantSpaces(o, k)
    decreases k - p
  {
    if p < k {
      WithoutRedundantSpacesCopies(o, p + 1, k);
      ConsAppend(o, p, k, WithoutRedundantSpaces(o, k));
    }
  }

  /** `o[p..k] + x` taken apart at its last character. */
  lemma SnocAppend(o: string, p: nat, k: nat, x: string)
    requires p <= k < |o|
    ensures o[p..k] + ([o[k]] + x) == o[p..k + 1] + x
  {
    assert o[p..k + 1] == o[p..k] + [o[k]];
  }

  /** One position of the position-by-position removal. */
  lemma WithoutRedundantSpacesStep(o: string, k: nat)
    requires k < |o|
    ensures WithoutRedundantSpaces(o, k)
         == (if RedundantSpace(o, k) then [] else [o[k]]) + WithoutRedundantSpaces(o, k + 1)
  {
  }

  /** `o[p..k + 1]`, without its last character when `drop` holds. */
  function KeptChunk(o: string, p: nat, k: nat, drop: bool): string
    requires p <= k < |o|
  {
    if drop then o[p..k] else o[p..k + 1]
  }

  /** A stretch without spaces, then one character kept or dropped. */
  lemma WithoutRedundantSpacesCopiesThen(o: string, p: nat, k: nat)
    requires p <= k < |o|
    requires forall j :: p <= j < k ==> o[j] != ' '
    ensures WithoutRedundantSpaces(o, p)
         == KeptChunk(o, p, k, RedundantSpace(o, k)) + WithoutRedundantSpaces(o, k + 1)
  {
    var x := WithoutRedundantSpaces(o, k + 1);
    WithoutRedundantSpacesCopies(o, p, k);
    WithoutRedundantSpacesStep(o, k);
    if RedundantSpace(o, k) {
      assert [] + x == x;
    } else {
      SnocAppend(o, p, k, x);
    }
  }

  lemma {:induction false} BackslashesBeforeRun(o: string, p: nat, k: nat)
    requires p + k <= |o|
    requires p == 0 || o[p - 1] != '\\'
    requires forall j :: p <= j < p + k ==> o[j] == '\\'
    ensures BackslashesBefore(o, p + k) == k
  {
    if k > 0 {
      BackslashesBeforeRun(o, p, k - 1);
    }
  }

  lemma {:induction false} UpperHexBeforeRun(o: string, q: nat, k: nat)
    requires q + 1 + k <= |o|
    requires !IsUpperHex(o[q])
    requires forall j :: q + 1 <= j < q + 1 + k ==> IsUpperHex(o[j])
    ensures UpperHexBefore(o, q + 1 + k) == k
  {
    if k > 0 {
      UpperHexBeforeRun(o, q, k - 1);
    }
  }

  lemma {:induction false} UpperHexFromRun(o: string, j: nat, k: nat)
    requires j + k < |o|
    requires forall t :: j <= t < j + k ==> IsUpperHex(o[t])
    requires !IsUpperHex(o[j + k])
    ensures UpperHexFrom(o, j) == k
    decreases k
  {
    if k > 0 {
      UpperHexFromRun(o, j + 1, k - 1);
    }
  }

  lemma {:induction false} BackslashesFromShift(o: string, p: nat, j: nat)
    requires p <= |o| && p <= j <= p + BackslashesFrom(o, p)
    ensures BackslashesFrom(o, j) == BackslashesFrom(o, p) - (j - p)
    decreases j - p
  {
    if p < j {
      BackslashesFromShift(o, p + 1, j);
    }
  }

  /** A hexadecimal escape at `q`, built from its parts. */
  lemma HexEscapeIntro(o: string, q: nat, h: nat)
    requires q + 2 + h <= |o| && o[q] == '\\' && 1 <= h <= 6
    requires UpperHexFrom(o, q + 1) == h && o[q + 1 + h] == ' '
    requires q + 2 + h == |o| || !IsHexOrSpace(o[q + 2 + h])
    ensures HexEscapeAt(o, q) == Some(q + 2 + h)
  {
  }

  /** A hexadecimal escape at the last backslash of the run from `p` makes
      the whole expression match at `p`. */
  lemma ExcessiveSpaceIntro(o: string, p: nat)
    requires p < |o| && BackslashesFrom(o, p) >= 1
    requires HexEscapeAt(o, p + BackslashesFrom(o, p) - 1).Some?
    ensures ExcessiveSpaceAt(o, p).Some?
  {
  }

  /** A hexadecimal escape at `q` is preceded by exactly one backslash of
      the run starting at `q`. */
  lemma HexEscapeSingleBackslash(o: string, q: nat)
    requires q <= |o| && HexEscapeAt(o, q).Some?
    ensures BackslashesFrom(o, q) == 1
  {
    HexEscapeShape(o, q);
    assert BackslashesFrom(o, q + 1) == 0;
  }

  /** Every match is a run of `n` backslashes from `p`, the last of which
      starts the hexadecimal escape, and group 1 holds the other `n - 1`. */
  lemma MatchShape(o: string, p: nat, m: SpaceMatch)
    requires p <= |o| && ExcessiveSpaceAt(o, p) == Some(m)
    ensures BackslashesFrom(o, p) >= 1 && m.bb == BackslashesFrom(o, p) - 1
    ensures HexEscapeAt(o, p + BackslashesFrom(o, p) - 1) == Some(m.end)
  {
    var n := BackslashesFrom(o, p);
    if p == 0 && HexEscapeAt(o, 0).Some? {
      HexEscapeSingleBackslash(o, 0);
    } else if !(n >= 2 && HexEscapeAt(o, p + n - 1).Some?) {
      HexEscapeSingleBackslash(o, p);
    }
  }

  /** What a hexadecimal escape at `q` consists of. */
  lemma HexEscapeShape(o: string, q: nat)
    requires q <= |o| && HexEscapeAt(o, q).Some?
    ensures var e := HexEscapeAt(o, q).value;
      && o[q] == '\\' && 1 <= e - q - 2 <= 6 && o[e - 1] == ' ' && IsUpperHex(o[q + 1])
      && UpperHexBefore(o, e - 1) == e - q - 2
      && (e == |o| || !IsHexOrSpace(o[e]))
  {
    var run := UpperHexFrom(o, q + 1);
    var h := if run < 6 then run else 6;
    UpperHexFromAll(o, q + 1);
    UpperHexBeforeRun(o, q, h);
  }

  /** The space ending a hexadecimal escape whose backslash ends a run of
      `n` backslashes is redundant exactly when `n` is odd. */
  lemma HexEscapeRedundantSpace(o: string, p: nat, n: nat, e: nat)
    requires p + n <= |o| && n >= 1 && BackslashesFrom(o, p) == n && (p == 0 || o[p - 1] != '\\')
    requires HexEscapeAt(o, p + n - 1) == Some(e)
    ensures RedundantSpace(o, e - 1) <==> n % 2 == 1
  {
    HexEscapeShape(o, p + n - 1);
    BackslashesFromAll(o, p);
    BackslashesBeforeRun(o, p, n);
  }

  /** The space ending a match is redundant exactly when group 1 has even
      length. */
  lemma MatchRedundantSpace(o: string, p: nat, m: SpaceMatch)
    requires p < |o| && (p == 0 || o[p - 1] != '\\') && ExcessiveSpaceAt(o, p) == Some(m)
    ensures RedundantSpace(o, m.end - 1) <==> m.bb % 2 == 0
  {
    MatchShape(o, p, m);
    HexEscapeRedundantSpace(o, p, BackslashesFrom(o, p), m.end);
  }

  /** The scan at `p` cannot land inside an escape: `p` does not follow a
      backslash, and no redundant space at or after `p` belongs to an
      escape whose backslashes begin before `p`. */
  ghost predicate ScanAligned(o: string, p: nat)
    requires p <= |o|
  {
    && (p == 0 || o[p - 1] != '\\')
    && forall i :: p <= i < |o| && RedundantSpace(o, i) ==> EscapeRunStart(o, i) >= p
  }

  /** Where no match starts, the scan copies one character. */
  lemma NoMatchStep(o: string, j: nat)
    requires j < |o| && ExcessiveSpaceAt(o, j).None?
    ensures RemoveExcessiveSpaces(o, j) == [o[j]] + RemoveExcessiveSpaces(o, j + 1)
  {
  }

  /** A stretch where no match starts is copied as it is. */
  lemma {:induction false} RemoveExcessiveSpacesCopies(o: string, p: nat, k: nat)
    requires p <= k <= |o|
    requires forall j :: p <= j < k ==> ExcessiveSpaceAt(o, j).None?
    ensures RemoveExcessiveSpaces(o, p) == o[p..k] + RemoveExcessiveSpaces(o, k)
    decreases k - p
  {
    if p < k {
      RemoveExcessiveSpacesCopies(o, p + 1, k);
      NoMatchStep(o, p);
      ConsAppend(o, p, k, RemoveExcessiveSpaces(o, k));
    }
  }

  /** A failed attempt at the start of a backslash run means its last
      backslash starts no hexadecimal escape followed by a space. */
  lemma FailedRunCandidate(o: string, p: nat)
    requires p < |o| && o[p] == '\\' && ExcessiveSpaceAt(o, p).None?
    ensures BackslashesFrom(o, p) >= 1 && HexEscapeAt(o, p + BackslashesFrom(o, p) - 1).None?
  {
  }

  /** A backslash followed by another backslash starts no hexadecimal escape. */
  lemma DoubledBackslash(o: string, j: nat)
    requires j + 1 < |o| && o[j + 1] == '\\'
    ensures HexEscapeAt(o, j).None?
  {
    assert UpperHexFrom(o, j + 1) == 0;
  }

  /** A failed attempt at the start of a backslash run means every attempt
      inside the run fails too: a later start sees a shorter run, whose last
      backslash is the same escape candidate. */
  lemma NoMatchInRun(o: string, p: nat, j: nat)
    requires p < |o| && o[p] == '\\' && ExcessiveSpaceAt(o, p).None?
    requires p < j < p + BackslashesFrom(o, p)
    ensures ExcessiveSpaceAt(o, j).None?
  {
    var n := BackslashesFrom(o, p);
    FailedRunCandidate(o, p);
    BackslashesFromShift(o, p, j);
    if j < p + n - 1 {
      BackslashesFromAll(o, p);
      DoubledBackslash(o, j);
    }
  }

  /** So a run of backslashes at which no match starts is copied. */
  lemma SkipFailedRun(o: string, p: nat, k: nat)
    requires p < |o| && o[p] == '\\' && ExcessiveSpaceAt(o, p).None?
    requires k == p + BackslashesFrom(o, p)
    ensures RemoveExcessiveSpaces(o, p) == o[p..k] + RemoveExcessiveSpaces(o, k)
  {
    forall j | p <= j < k
      ensures ExcessiveSpaceAt(o, j).None?
    {
      if j > p {
        NoMatchInRun(o, p, j);
      }
    }
    RemoveExcessiveSpacesCopies(o, p, k);
  }

  lemma AlignedAfterMatch(o: string, p: nat, e: nat)
    requires p < e <= |o| && o[e - 1] == ' '
    ensures ScanAligned(o, e)
  {
    forall i | e <= i < |o| && RedundantSpace(o, i)
      ensures EscapeRunStart(o, i) >= e
    {
      RedundantSpaceShape(o, i);
      var m := UpperHexBefore(o, i);
    }
  }

  lemma AlignedAfterPlain(o: string, p: nat)
    requires p < |o| && ScanAligned(o, p) && o[p] != '\\'
    ensures !RedundantSpace(o, p)
    ensures ScanAligned(o, p + 1)
  {
    if RedundantSpace(o, p) {
      RedundantSpaceShape(o, p);
    }
    forall i | p + 1 <= i < |o| && RedundantSpace(o, i)
      ensures EscapeRunStart(o, i) >= p + 1
    {
      RedundantSpaceShape(o, i);
      assert o[EscapeRunStart(o, i)] == '\\';
    }
  }

  lemma {:induction false} BackslashesFromRun(o: string, p: nat, k: nat)
    requires p + k <= |o|
    requires forall j :: p <= j < p + k ==> o[j] == '\\'
    requires p + k == |o| || o[p + k] != '\\'
    ensures BackslashesFrom(o, p) == k
    decreases k
  {
    if k > 0 {
      BackslashesFromRun(o, p + 1, k - 1);
    }
  }

  /** A redundant space whose escape's backslashes start where a backslash
      run starts is found by the attempt at the start of that run. */
  lemma RunEscapeMatches(o: string, p: nat, i: nat)
    requires p < |o| && o[p] == '\\' && (p == 0 || o[p - 1] != '\\')
    requires p < i < |o| && RedundantSpace(o, i) && EscapeRunStart(o, i) == p
    ensures ExcessiveSpaceAt(o, p).Some?
  {
    RedundantSpaceShape(o, i);
    var m := UpperHexBefore(o, i);
    var r := BackslashesBefore(o, i - m);
    BackslashesFromRun(o, p, r);
    UpperHexFromRun(o, p + r, m);
    HexEscapeIntro(o, p + r - 1, m);
    ExcessiveSpaceIntro(o, p);
  }

  /** Past a run of backslashes at which no match starts, the scan is
      aligned again one character after the run. */
  lemma AlignedAfterRun(o: string, p: nat)
    requires p < |o| && ScanAligned(o, p) && o[p] == '\\' && ExcessiveSpaceAt(o, p).None?
    requires p + BackslashesFrom(o, p) < |o|
    ensures ScanAligned(o, p + BackslashesFrom(o, p) + 1)
  {
    var n := BackslashesFrom(o, p);
    BackslashesFromAll(o, p);
    forall i | p + n + 1 <= i < |o| && RedundantSpace(o, i)
      ensures EscapeRunStart(o, i) >= p + n + 1
    {
      RedundantSpaceShape(o, i);
      if EscapeRunStart(o, i) == p {
        RunEscapeMatches(o, p, i);
        assert false;
      }
    }
  }

  /** Inside a match, before its final space, there is only backslashes and
      digits, so no redundant space. */
  lemma MatchInterior(o: string, p: nat, m: SpaceMatch)
    requires p < |o| && ExcessiveSpaceAt(o, p) == Some(m)
    ensures forall j :: p <= j < m.end - 1 ==> o[j] != ' '
  {
    var n := BackslashesFrom(o, p);
    MatchShape(o, p, m);
    BackslashesFromAll(o, p);
    UpperHexFromAll(o, p + n);
  }

  /** The scan over a match emits its chunk and resumes at its end. */
  lemma MatchRemoves(o: string, p: nat, m: SpaceMatch)
    requires p < |o| && ExcessiveSpaceAt(o, p) == Some(m)
    ensures RemoveExcessiveSpaces(o, p) == KeptChunk(o, p, m.end - 1, m.bb % 2 == 0) + RemoveExcessiveSpaces(o, m.end)
  {
  }

  /** Dropping the redundant spaces of a match leaves the chunk the scan
      emits for it. */
  lemma MatchWithout(o: string, p: nat, m: SpaceMatch)
    requires p < |o| && (p == 0 || o[p - 1] != '\\') && ExcessiveSpaceAt(o, p) == Some(m)
    ensures WithoutRedundantSpaces(o, p) == KeptChunk(o, p, m.end - 1, m.bb % 2 == 0) + WithoutRedundantSpaces(o, m.end)
  {
    MatchInterior(o, p, m);
    WithoutRedundantSpacesCopiesThen(o, p, m.end - 1);
    MatchRedundantSpace(o, p, m);
  }

  /** The scan over a run of backslashes at which no match starts, and over
      the character after it, copies them. */
  lemma RunRemoves(o: string, p: nat, k: nat)
    requires p < |o| && o[p] == '\\' && ExcessiveSpaceAt(o, p).None?
    requires k == p + BackslashesFrom(o, p) && k < |o|
    ensures RemoveExcessiveSpaces(o, p) == o[p..k + 1] + RemoveExcessiveSpaces(o, k + 1)
  {
    SkipFailedRun(o, p, k);
    assert ExcessiveSpaceAt(o, k).None?;
    NoMatchStep(o, k);
    SnocAppend(o, p, k, RemoveExcessiveSpaces(o, k + 1));
  }

  /** A run of backslashes and the character after it hold no redundant
      space. */
  lemma RunWithout(o: string, p: nat, k: nat)
    requires p < |o| && o[p] == '\\'
    requires k == p + BackslashesFrom(o, p) && k < |o|
    ensures WithoutRedundantSpaces(o, p) == o[p..k + 1] + WithoutRedundantSpaces(o, k + 1)
  {
    BackslashesFromAll(o, p);
    assert UpperHexBefore(o, k) == 0;
    WithoutRedundantSpacesCopiesThen(o, p, k);
  }

  /** Both sides emit the same chunk before positions where they agree. */
  lemma SameChunk(r: string, w: string, c: string, r': string, w': string)
    requires r == c + r' && w == c + w' && r' == w'
    ensures r == w
  {
  }

  /** A character that is not a redundant space is kept. */
  lemma PlainWithout(o: string, p: nat)
    requires p < |o| && !RedundantSpace(o, p)
    ensures WithoutRedundantSpaces(o, p) == [o[p]] + WithoutRedundantSpaces(o, p + 1)
  {
  }

  /** A plain character: both sides copy it and go on with the next. */
  lemma PlainCase(o: string, p: nat)
    requires p < |o| && ExcessiveSpaceAt(o, p).None? && !RedundantSpace(o, p)
    requires RemoveExcessiveSpaces(o, p + 1) == WithoutRedundantSpaces(o, p + 1)
    ensures RemoveExcessiveSpaces(o, p) == WithoutRedundantSpaces(o, p)
  {
    NoMatchStep(o, p);
    PlainWithout(o, p);
    SameChunk(RemoveExcessiveSpaces(o, p), WithoutRedundantSpaces(o, p), [o[p]],
              RemoveExcessiveSpaces(o, p + 1), WithoutRedundantSpaces(o, p + 1));
  }

  /** A run of backslashes that starts no match: both sides copy it and the
      character after it. */
  lemma RunCase(o: string, p: nat, k: nat)
    requires p < |o| && o[p] == '\\' && ExcessiveSpaceAt(o, p).None?
    requires k == p + BackslashesFrom(o, p) && k < |o|
    requires RemoveExcessiveSpaces(o, k + 1) == WithoutRedundantSpaces(o, k + 1)
    ensures RemoveExcessiveSpaces(o, p) == WithoutRedundantSpaces(o, p)
  {
    RunRemoves(o, p, k);
    RunWithout(o, p, k);
    SameChunk(RemoveExcessiveSpaces(o, p), WithoutRedundantSpaces(o, p), o[p..k + 1],
              RemoveExcessiveSpaces(o, k + 1), WithoutRedundantSpaces(o, k + 1));
  }

  /** A run of backslashes ending the string, at which no match starts:
      both sides copy it. */
  lemma FinalRunCase(o: string, p: nat)
    requires p < |o| && o[p] == '\\' && ExcessiveSpaceAt(o, p).None?
    requires p + BackslashesFrom(o, p) == |o|
    ensures RemoveExcessiveSpaces(o, p) == WithoutRedundantSpaces(o, p)
  {
    SkipFailedRun(o, p, |o|);
    BackslashesFromAll(o, p);
    WithoutRedundantSpacesCopies(o, p, |o|);
    assert RemoveExcessiveSpaces(o, |o|) == [] == WithoutRedundantSpaces(o, |o|);
    SameChunk(RemoveExcessiveSpaces(o, p), WithoutRedundantSpaces(o, p), o[p..|o|],
              RemoveExcessiveSpaces(o, |o|), WithoutRedundantSpaces(o, |o|));
  }

  /** A match: both sides emit the match, without its last space when that
      is redundant. */
  lemma MatchCase(o: string, p: nat, m: SpaceMatch)
    requires p < |o| && (p == 0 || o[p - 1] != '\\') && ExcessiveSpaceAt(o, p) == Some(m)
    requires RemoveExcessiveSpaces(o, m.end) == WithoutRedundantSpaces(o, m.end)
    ensures RemoveExcessiveSpaces(o, p) == WithoutRedundantSpaces(o, p)
  {
    MatchRemoves(o, p, m);
    MatchWithout(o, p, m);
    SameChunk(RemoveExcessiveSpaces(o, p), WithoutRedundantSpaces(o, p), KeptChunk(o, p, m.end - 1, m.bb % 2 == 0),
              RemoveExcessiveSpaces(o, m.end), WithoutRedundantSpaces(o, m.end));
  }

  /** Aligned scans of the two sides agree. */
  lemma {:induction false} RemoveExcessiveSpacesAligned(o: string, p: nat)
    requires p <= |o| && ScanAligned(o, p)
    ensures RemoveExcessiveSpaces(o, p) == WithoutRedundantSpaces(o, p)
    decreases |o| - p
  {
    if p < |o| {
      if ExcessiveSpaceAt(o, p).Some? {
        var m := ExcessiveSpaceAt(o, p).value;
        AlignedAfterMatch(o, p, m.end);
        RemoveExcessiveSpacesAligned(o, m.end);
        MatchCase(o, p, m);
      } else if o[p] != '\\' {
        AlignedAfterPlain(o, p);
        RemoveExcessiveSpacesAligned(o, p + 1);
        PlainCase(o, p);
      } else if p + BackslashesFrom(o, p) == |o| {
        FinalRunCase(o, p);
      } else {
        var k := p + BackslashesFrom(o, p);
        AlignedAfterRun(o, p);
        RemoveExcessiveSpacesAligned(o, k + 1);
        RunCase(o, p, k);
      }
    }
  }

  /** The global replacement removes exactly the redundant spaces. */
  lemma RemoveExcessiveSpacesExactly(o: string)
    ensures RemoveExcessiveSpaces(o, 0) == WithoutRedundantSpaces(o, 0)
  {
    forall i | 0 <= i < |o| && RedundantSpace(o, i)
      ensures EscapeRunStart(o, i) >= 0
    {
      RedundantSpaceShape(o, i);
    }
    RemoveExcessiveSpacesAligned(o, 0);
  }

  // ---------------------------------------------------------------------
  // The whole of `escape`

  /** What `escape` returns for `s`: the re-encoding of every character,
      with its leading fix-up, without the spaces that are redundant. */
  function Escaped(s: string): string
  {
    WithoutRedundantSpaces(FixLeading(s, EscapeChars(s)), 0)
  }

  /** `escape`: the loop re-encodes one character per turn, the leading
      fix-up and the regular-expression replacement follow. The result is
      the declarative `Escaped`, whatever the scan of the replacement does. */
  method Escape(str: string) returns (output: string)
    ensures output == Escaped(str)
  {
    output := "";
    var counter := 0;
    while counter < |str|
      invariant 0 <= counter <= |str|
      invariant output == EscapeChars(str[..counter])
    {
      var character := str[counter];
      counter := counter + 1;
      var value;
      if IsEscapedControl(character) {
        value := "\\" + UpperHex(character as int) + " ";
      } else if character == '\\' || IsSingleEscape(character) {
        value := "\\" + [character];
      } else {
        value := [character];
      }
      assert str[..counter] == str[..counter - 1] + [character];
      EscapeCharsAppend(str[..counter - 1], [character]);
      output := output + value;
    }
    assert str[..counter] == str;
    ghost var encoded := output;
    if StartsWithDashDigitOrDash(output) {
      output := "\\-" + Tail(output);
    } else if |str| >= 1 && IsDigit(str[0]) {
      output := "\\3" + [str[0]] + " " + Tail(output);
    }
    assert output == FixLeading(str, encoded);
    RemoveExcessiveSpacesExactly(output);
    output := RemoveExcessiveSpaces(output, 0);
  }
}
