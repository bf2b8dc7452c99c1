/** `gobbleHex` and `unescape` of src/getLocalIdent.js: decoding the escapes
    of a CSS identifier, after "consume an escaped code point" (section
    4.3.7 of CSS Syntax Module Level 3). */
module CssUnescape {
  import opened Chars
  import opened Wrappers
  import JsString

  // ---------------------------------------------------------------------
  // gobbleHex

  /** `toLowerCase()`, restricted to ASCII letters. No other character
      lower-cases to a hexadecimal digit or a space, which is all the
      caller looks at. */
  function Lower(s: string): string
  {
    seq(|s|, i requires 0 <= i < |s| => FoldCase(s[i]))
  }

  /** How many hexadecimal digits, of either case, `s` holds from `p + k`
      on, looking no further than the sixth character from `p`. */
  function HexDigitsAt(s: string, p: nat, k: nat): (n: nat)
    requires k <= 6
    ensures k <= n <= 6
    ensures n == k || p + n <= |s|
    ensures n < 6 && p + n < |s| ==> !IsHexDigit(s[p + n])
    decreases 6 - k
  {
    if k < 6 && p + k < |s| && IsHexDigit(s[p + k]) then HexDigitsAt(s, p, k + 1) else k
  }

  /** The number the hexadecimal digits `s[p..p + n]` spell. */
  function DigitsValueAt(s: string, p: nat, n: nat): nat
    requires p + n <= |s|
  {
    if n == 0 then 0
    else 16 * DigitsValueAt(s, p, n - 1) + (if IsHexDigit(s[p + n - 1]) then HexDigitValue(s[p + n - 1]) else 0)
  }

  /** The replacement character U+FFFD for zero, a surrogate or a value
      above the maximum allowed code point 0x10FFFF, the code point itself
      otherwise. */
  function CodePointChar(v: nat): char
  {
    if v == 0 || (0xD800 <= v <= 0xDFFF) || v > 0x10FFFF then 0xFFFD as char else v as char
  }

  /** What `gobbleHex` returns when it does not return `undefined`: the
      decoded character and how many characters it consumed. */
  datatype Gobbled = Gobbled(decoded: char, consumed: nat)

  /** The escape `gobbleHex` reads from position `p` of `s` on, `None`
      standing for `undefined`: the leading hexadecimal digits of either
      case, at most six, decoded, and a space after fewer than six digits
      consumed with them. */
  function GobbleAt(s: string, p: nat): (r: Option<Gobbled>)
    ensures r.Some? ==> 1 <= r.value.consumed && p + r.value.consumed <= |s|
  {
    var n := HexDigitsAt(s, p, 0);
    if n == 0 then None
    else Some(Gobbled(CodePointChar(DigitsValueAt(s, p, n)), if n < 6 && p + n < |s| && s[p + n] == ' ' then n + 1 else n))
  }

  /** What `gobbleHex(h)` returns. */
  function GobbleResult(h: string): (r: Option<Gobbled>)
    ensures r.Some? ==> 1 <= r.value.consumed <= |h|
  {
    GobbleAt(h, 0)
  }

  /** Lower-casing one character: it is a valid lower-case digit for the
      loop of `gobbleHex` exactly when it was a hexadecimal digit of either
      case, with the same value, and it is a space exactly when it was. */
  lemma FoldCaseHex(c: char)
    ensures ('a' <= FoldCase(c) <= 'f' || '0' <= FoldCase(c) <= '9') <==> IsHexDigit(c)
    ensures IsHexDigit(c) ==> HexDigitValue(FoldCase(c)) == HexDigitValue(c)
    ensures FoldCase(c) == ' ' <==> c == ' '
  {
  }

  /** `gobbleHex`: the loop collects at most six lower-cased hexadecimal
      digits and notes whether the character that stopped it is a space. */
  method GobbleHex(str: string) returns (r: Option<Gobbled>)
    ensures r == GobbleResult(str)
  {
    var lower := Lower(str);
    var hex := "";
    var spaceTerminated := false;
    var index := 0;
    while index < 6 && index < |lower|
      invariant 0 <= index <= 6 && index <= |lower|
      invariant hex == lower[..index] && AllHex(hex)
      invariant HexValue(hex) == DigitsValueAt(str, 0, index)
      invariant HexDigitsAt(str, 0, 0) == HexDigitsAt(str, 0, index)
      invariant !spaceTerminated
    {
      var code := lower[index];
      FoldCaseHex(str[index]);
      var valid := ('a' <= code <= 'f') || ('0' <= code <= '9');
      spaceTerminated := code == ' ';
      if !valid {
        break;
      }
      HexValueSnoc(hex, lower[index]);
      hex := hex + [lower[index]];
      index := index + 1;
    }
    assert HexDigitsAt(str, 0, index) == index;
    if |hex| == 0 {
      return None;
    }
    var codePoint := HexValue(hex);
    var isSurrogate := 0xD800 <= codePoint <= 0xDFFF;
    if isSurrogate || codePoint == 0 || codePoint > 0x10FFFF {
      return Some(Gobbled(0xFFFD as char, |hex| + if spaceTerminated then 1 else 0));
    }
    return Some(Gobbled(codePoint as char, |hex| + if spaceTerminated then 1 else 0));
  }

  // ---------------------------------------------------------------------
  // unescape

  /** `index + 7`, clamped to the length as `slice` does: the characters
      `gobbleHex` is given at a backslash at `i` are `s[i + 1..SliceEnd(s, i)]`. */
  function SliceEnd(s: string, i: nat): (e: nat)
    requires i < |s|
    ensures i + 1 <= e <= |s| && e <= i + 7
  {
    if i + 7 <= |s| then i + 7 else |s|
  }

  /** One turn of the loop of `unescape` at index `i`: what it appends and
      the index it continues at. */
  datatype Step = Step(out: string, next: nat)

  function Turn(s: string, i: nat): (t: Step)
    requires i < |s|
    ensures i < t.next <= |s| && |t.out| <= 1
  {
    if s[i] != '\\' then Step([s[i]], i + 1)
    else match GobbleResult(s[i + 1..SliceEnd(s, i)])
      case Some(g) => Step([g.decoded], i + g.consumed + 1)
      case None =>
        if i + 1 < |s| && s[i + 1] == '\\' then Step(['\\'], i + 2)
        else if i + 1 == |s| then Step(['\\'], i + 1)
        else Step([], i + 1)
  }

  /** What the loop of `unescape` appends from index `i` on. */
  function UnescapedFrom(s: string, i: nat): string
    decreases |s| - i
  {
    if i >= |s| then []
    else
      var t := Turn(s, i);
      t.out + UnescapedFrom(s, t.next)
  }

  /** What `unescape` returns for `s`. */
  function Unescaped(s: string): string
  {
    UnescapedFrom(s, 0)
  }

  /** `unescape`: a string without a backslash is returned as it is;
      otherwise the loop decodes one escape or copies one character per
      turn, advancing `index` past what it consumed. */
  method Unescape(str: string) returns (returnValue: string)
    ensures returnValue == Unescaped(str)
  {
    if '\\' !in str {
      UnescapedWithoutBackslash(str);
      return str;
    }
    returnValue := "";
    var index := 0;
    while index < |str|
      invariant 0 <= index <= |str|
      invariant returnValue + UnescapedFrom(str, index) == Unescaped(str)
      decreases |str| - index
    {
      ghost var before, at := returnValue, index;
      var piece;
      if str[index] == '\\' {
        piece, index := UnescapeBackslash(str, index);
      } else {
        piece, index := [str[index]], index + 1;
      }
      returnValue := returnValue + piece;
      UnescapedFromTurn(str, at, Step(piece, index));
      Advance(before, piece, returnValue, UnescapedFrom(str, at), UnescapedFrom(str, index), Unescaped(str));
    }
  }

  /** The body of the loop of `unescape` at a backslash: a hexadecimal
      escape that `gobbleHex` decodes, an escaped backslash, a backslash
      that ends the string (kept), or a backslash that is dropped. It
      returns what the turn appends and the index the loop goes on at. */
  method UnescapeBackslash(str: string, index: nat) returns (piece: string, next: nat)
    requires index < |str| && str[index] == '\\'
    ensures Turn(str, index) == Step(piece, next)
  {
    var gobbled := GobbleHex(str[index + 1..SliceEnd(str, index)]);
    if gobbled.Some? {
      return [gobbled.value.decoded], index + gobbled.value.consumed + 1;
    }
    if index + 1 < |str| && str[index + 1] == '\\' {
      return ['\\'], index + 2;
    }
    if |str| == index + 1 {
      return [str[index]], index + 1;
    }
    return [], index + 1;
  }

  /** One turn of the loop of `unescape` keeps its invariant: what the turn
      appended to the result is what it decoded. */
  lemma Advance(before: string, x: string, after: string, rest: string, rest': string, whole: string)
    requires before + rest == whole
    requires after == before + x && rest == x + rest'
    ensures after + rest' == whole
  {
  }

  // ---------------------------------------------------------------------
  // Properties

  /** `gobbleHex` returns `undefined` exactly when its input does not start
      with a hexadecimal digit of either case. */
  lemma GobbleResultNone(h: string)
    ensures GobbleResult(h).None? <==> h == [] || !IsHexDigit(h[0])
  {
  }

  /** The digits counted run up to the first character that is not one. */
  lemma {:induction false} HexDigitsAtRun(s: string, p: nat, k: nat, n: nat)
    requires k <= n <= 6 && p + n <= |s|
    requires forall j :: p + k <= j < p + n ==> IsHexDigit(s[j])
    requires n == 6 || p + n == |s| || !IsHexDigit(s[p + n])
    ensures HexDigitsAt(s, p, k) == n
    decreases n - k
  {
    if k < n {
      HexDigitsAtRun(s, p, k + 1, n);
    }
  }

  /** On hexadecimal digits, `DigitsValueAt` is the value of the digits. */
  lemma {:induction false} DigitsValueAtOfDigits(s: string, p: nat, n: nat)
    requires p + n <= |s| && AllHex(s[p..p + n])
    ensures DigitsValueAt(s, p, n) == HexValue(s[p..p + n])
  {
    if n > 0 {
      assert s[p..p + n][..n - 1] == s[p..p + n - 1];
      assert s[p..p + n][n - 1] == s[p + n - 1];
      DigitsValueAtOfDigits(s, p, n - 1);
    }
  }

  /** `n` hexadecimal digits, either case, at `p`, where `n` is six or the
      digits end there: they decode to their value's code point (or
      U+FFFD), and one following space is consumed only when fewer than
      six digits were read. */
  lemma GobbleAtDigits(s: string, p: nat, n: nat)
    requires 1 <= n <= 6 && p + n <= |s| && AllHex(s[p..p + n])
    requires n == 6 || p + n == |s| || !IsHexDigit(s[p + n])
    ensures GobbleAt(s, p)
         == Some(Gobbled(CodePointChar(HexValue(s[p..p + n])), if n < 6 && p + n < |s| && s[p + n] == ' ' then n + 1 else n))
  {
    forall j | p <= j < p + n
      ensures IsHexDigit(s[j])
    {
      assert s[p..p + n][j - p] == s[j];
    }
    HexDigitsAtRun(s, p, 0, n);
    DigitsValueAtOfDigits(s, p, n);
  }

  /** The same for the string `gobbleHex` is given. */
  lemma GobbleResultDigits(h: string, n: nat)
    requires 1 <= n <= 6 && n <= |h| && AllHex(h[..n])
    requires n == 6 || n == |h| || !IsHexDigit(h[n])
    ensures GobbleResult(h)
         == Some(Gobbled(CodePointChar(HexValue(h[..n])), if n < 6 && n < |h| && h[n] == ' ' then n + 1 else n))
  {
    assert h[0..n] == h[..n];
    GobbleAtDigits(h, 0, n);
  }

  /** Reading the slice `unescape` hands to `gobbleHex` at a backslash at
      `i` is reading `s` itself after the backslash. */
  lemma GobbleSlice(s: string, i: nat)
    requires i < |s|
    ensures GobbleResult(s[i + 1..SliceEnd(s, i)]) == GobbleAt(s, i + 1)
  {
    var h := s[i + 1..SliceEnd(s, i)];
    HexDigitsAtShifted(h, s, i + 1, 0);
    var n := HexDigitsAt(s, i + 1, 0);
    DigitsValueAtShifted(h, s, i + 1, n);
  }

  /** Counting digits in a window of `s` that reaches six characters or
      the end of `s` is counting them in `s`. */
  lemma {:induction false} HexDigitsAtShifted(h: string, s: string, p: nat, k: nat)
    requires k <= 6 && p + |h| <= |s| && (|h| == 6 || p + |h| == |s|)
    requires forall j :: 0 <= j < |h| ==> h[j] == s[p + j]
    ensures HexDigitsAt(h, 0, k) == HexDigitsAt(s, p, k)
    decreases 6 - k
  {
    if k < 6 && k < |h| {
      assert h[k] == s[p + k];
      HexDigitsAtShifted(h, s, p, k + 1);
    }
  }

  lemma {:induction false} DigitsValueAtShifted(h: string, s: string, p: nat, n: nat)
    requires n <= |h| && p + |h| <= |s|
    requires forall j :: 0 <= j < |h| ==> h[j] == s[p + j]
    ensures DigitsValueAt(h, 0, n) == DigitsValueAt(s, p, n)
  {
    if n > 0 {
      assert h[n - 1] == s[p + n - 1];
      DigitsValueAtShifted(h, s, p, n - 1);
    }
  }

  /** Decoding copies what has no backslash. */
  lemma {:induction false} UnescapedFromWithoutBackslash(s: string, i: nat)
    requires i <= |s|
    requires forall j :: i <= j < |s| ==> s[j] != '\\'
    ensures UnescapedFrom(s, i) == s[i..]
    decreases |s| - i
  {
    if i < |s| {
      UnescapedFromWithoutBackslash(s, i + 1);
      assert s[i..] == [s[i]] + s[i + 1..];
    }
  }

  /** A string without a backslash is returned unchanged. */
  lemma UnescapedWithoutBackslash(s: string)
    requires '\\' !in s
    ensures Unescaped(s) == s
  {
    UnescapedFromWithoutBackslash(s, 0);
  }

  /** An escaped backslash `\\` yields one backslash. */
  lemma UnescapedDoubleBackslash(s: string, i: nat)
    requires i + 1 < |s| && s[i] == '\\' && s[i + 1] == '\\'
    ensures UnescapedFrom(s, i) == ['\\'] + UnescapedFrom(s, i + 2)
  {
    GobbleSlice(s, i);
    UnescapedFromTurn(s, i, Step(['\\'], i + 2));
  }

  /** A backslash before a character that is neither a hexadecimal digit
      nor a backslash is dropped and the character kept. */
  lemma UnescapedOtherEscape(s: string, i: nat)
    requires i + 1 < |s| && s[i] == '\\' && s[i + 1] != '\\' && !IsHexDigit(s[i + 1])
    ensures UnescapedFrom(s, i) == [s[i + 1]] + UnescapedFrom(s, i + 2)
  {
    GobbleSlice(s, i);
    UnescapedFromTurn(s, i, Step([], i + 1));
    UnescapedFromTurn(s, i + 1, Step([s[i + 1]], i + 2));
  }

  /** A character other than a backslash is copied. */
  lemma UnescapedFromPlain(s: string, i: nat)
    requires i < |s| && s[i] != '\\'
    ensures UnescapedFrom(s, i) == [s[i]] + UnescapedFrom(s, i + 1)
  {
    UnescapedFromTurn(s, i, Step([s[i]], i + 1));
  }

  /** A backslash at the very end is kept, whatever comes before it. */
  lemma UnescapedTrailingBackslash(s: string)
    requires |s| > 0 && s[|s| - 1] == '\\'
    ensures UnescapedFrom(s, |s| - 1) == ['\\']
  {
    GobbleSlice(s, |s| - 1);
  }

  /** So a string whose only backslash ends it is returned unchanged. */
  lemma UnescapedLoneTrailingBackslash(t: string)
    requires '\\' !in t
    ensures Unescaped(t + ['\\']) == t + ['\\']
  {
    var s := t + ['\\'];
    UnescapedTrailingBackslash(s);
    UnescapedFromPrefix(s, 0, |t|);
    assert s[..|t|] == t;
  }

  /** A stretch without backslashes before `k` is copied. */
  lemma {:induction false} UnescapedFromPrefix(s: string, i: nat, k: nat)
    requires i <= k <= |s|
    requires forall j :: i <= j < k ==> s[j] != '\\'
    ensures UnescapedFrom(s, i) == s[i..k] + UnescapedFrom(s, k)
    decreases k - i
  {
    if i < k {
      UnescapedFromPrefix(s, i + 1, k);
      JsString.ConsSlice(s, i, k, UnescapedFrom(s, k));
    }
  }

  /** `\` and `n` hexadecimal digits, `n` from one to six, ending there
      (six digits, the end of the string, or another character follow):
      they decode to the code point of their value, or to U+FFFD when it is
      zero, a surrogate or above 0x10FFFF, and one following space is
      swallowed when there are fewer than six digits. */
  lemma UnescapedHexEscape(s: string, i: nat, n: nat)
    requires 1 <= n <= 6 && i + 1 + n <= |s| && s[i] == '\\'
    requires AllHex(s[i + 1..i + 1 + n])
    requires n == 6 || i + 1 + n == |s| || !IsHexDigit(s[i + 1 + n])
    ensures UnescapedFrom(s, i)
         == [CodePointChar(HexValue(s[i + 1..i + 1 + n]))]
            + UnescapedFrom(s, if n < 6 && i + 1 + n < |s| && s[i + 1 + n] == ' ' then i + n + 2 else i + n + 1)
  {
    TurnHexEscape(s, i, n);
    UnescapedFromTurn(s, i, Turn(s, i));
  }

  lemma TurnHexEscape(s: string, i: nat, n: nat)
    requires 1 <= n <= 6 && i + 1 + n <= |s| && s[i] == '\\'
    requires AllHex(s[i + 1..i + 1 + n])
    requires n == 6 || i + 1 + n == |s| || !IsHexDigit(s[i + 1 + n])
    ensures Turn(s, i)
         == Step([CodePointChar(HexValue(s[i + 1..i + 1 + n]))],
                 if n < 6 && i + 1 + n < |s| && s[i + 1 + n] == ' ' then i + n + 2 else i + n + 1)
  {
    GobbleAtDigits(s, i + 1, n);
    GobbleSlice(s, i);
  }

  /** Decoding from `i` is the turn at `i` followed by decoding from where
      it continues. */
  lemma UnescapedFromTurn(s: string, i: nat, t: Step)
    requires i < |s| && Turn(s, i) == t
    ensures UnescapedFrom(s, i) == t.out + UnescapedFrom(s, t.next)
  {
  }

  /** Decoding never lengthens a string. */
  lemma {:induction false} UnescapedFromLength(s: string, i: nat)
    requires i <= |s|
    ensures |UnescapedFrom(s, i)| <= |s| - i
    decreases |s| - i
  {
    if i < |s| {
      UnescapedFromLength(s, Turn(s, i).next);
    }
  }
}
