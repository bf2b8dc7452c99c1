/** The output of `escape` in closed form: every input character becomes
    one token, and a control character's escape keeps its closing space
    only in front of a hexadecimal digit. The three steps of `escape`
    compose to exactly this. */
module EscapeTokens {
  import opened Chars
  import opened CssEscape

  /** The space closing a control character's escape survives when the
      next input character is a hexadecimal digit, whose re-encoding starts
      with that digit. */
  predicate KeepsSpace(rest: string)
  {
    rest != [] && IsHexDigit(rest[0])
  }

  /** The token for `c` when `rest` follows it in the input: a control
      character (all of them are below 16) becomes `\` and one upper-case
      hexadecimal digit, followed by a space only where it is needed. */
  function Token(c: char, rest: string): string
  {
    if IsEscapedControl(c) then
      if KeepsSpace(rest) then ['\\', UpperHexDigit(c as int), ' '] else ['\\', UpperHexDigit(c as int)]
    else EscapeChar(c)
  }

  function Tokens(u: string): string
  {
    if u == [] then [] else Token(u[0], u[1..]) + Tokens(u[1..])
  }

  /** What `escape` returns, token by token, with the leading fix-up. */
  function Compact(s: string): string
  {
    if StartsWithDashDigitOrDash(s) then ['\\', '-'] + Tokens(s[1..])
    else if |s| >= 1 && IsDigit(s[0]) then
      ['\\', '3', s[0]] + (if KeepsSpace(s[1..]) then [' '] else []) + Tokens(s[1..])
    else Tokens(s)
  }

  // ---------------------------------------------------------------------
  // First characters

  /** A re-encoding starts with a hexadecimal digit or a space exactly when
      the character is a hexadecimal digit (digits are copied, a space is
      escaped). */
  lemma EscapeCharLead(c: char)
    ensures |EscapeChar(c)| >= 1
    ensures IsHexOrSpace(EscapeChar(c)[0]) <==> IsHexDigit(c)
  {
  }

  lemma EscapeCharsLead(u: string)
    requires u != []
    ensures EscapeChars(u) != [] && EscapeChars(u)[0] == EscapeChar(u[0])[0]
  {
    EscapeCharHead(u[0]);
  }

  /** The same for a token, which in addition is never a raw space and
      starts with its character or with a backslash. */
  lemma TokenLead(c: char, rest: string)
    ensures |Token(c, rest)| >= 1
    ensures Token(c, rest)[0] == c || Token(c, rest)[0] == '\\'
    ensures IsHexOrSpace(Token(c, rest)[0]) <==> IsHexDigit(c)
    ensures IsDigit(Token(c, rest)[0]) || Token(c, rest)[0] == '-' <==> IsDigit(c) || c == '-'
  {
    EscapeCharHead(c);
  }

  lemma TokensLead(u: string)
    requires u != []
    ensures Tokens(u) != [] && Tokens(u)[0] == Token(u[0], u[1..])[0]
  {
    TokenLead(u[0], u[1..]);
  }

  /** `escape` never produces an identifier that starts with a digit, with
      `-` and a digit, or with `--`. */
  lemma CompactValidStart(s: string)
    ensures Compact(s) == [] || !IsDigit(Compact(s)[0])
    ensures !StartsWithDashDigitOrDash(Compact(s))
  {
    if !StartsWithDashDigitOrDash(s) && !(|s| >= 1 && IsDigit(s[0])) && s != [] {
      TokensLead(s);
      TokenLead(s[0], s[1..]);
      if Tokens(s)[0] == '-' && |s| >= 2 {
        assert Token(s[0], s[1..]) == ['-'];
        assert Tokens(s)[1] == Tokens(s[1..])[0];
        TokensLead(s[1..]);
        TokenLead(s[1], s[2..]);
      }
    }
  }

  // ---------------------------------------------------------------------
  // The space removal applied to re-encoded characters

  /** The run of backslashes ending just before `i` has even length, so a
      backslash at `i` starts an escape. */
  predicate EvenRunBefore(o: string, i: nat)
    requires i <= |o|
  {
    if i > 0 && o[i - 1] == '\\' then !EvenRunBefore(o, i - 1) else true
  }

  lemma {:induction false} EvenRunParity(o: string, i: nat)
    requires i <= |o|
    ensures EvenRunBefore(o, i) <==> BackslashesBefore(o, i) % 2 == 0
  {
    if i > 0 && o[i - 1] == '\\' {
      EvenRunParity(o, i - 1);
      Flip(BackslashesBefore(o, i - 1));
    }
  }

  lemma Flip(x: nat)
    ensures (x + 1) % 2 == 0 <==> x % 2 == 1
  {
  }

  /** A position that is not a redundant space is kept. */
  lemma KeptAt(o: string, i: nat)
    requires i < |o| && !RedundantSpace(o, i)
    ensures WithoutRedundantSpaces(o, i) == [o[i]] + WithoutRedundantSpaces(o, i + 1)
  {
    WithoutRedundantSpacesStep(o, i);
  }

  /** A redundant space is dropped. */
  lemma DroppedAt(o: string, i: nat)
    requires i < |o| && RedundantSpace(o, i)
    ensures WithoutRedundantSpaces(o, i) == WithoutRedundantSpaces(o, i + 1)
  {
    WithoutRedundantSpacesStep(o, i);
    assert [] + WithoutRedundantSpaces(o, i + 1) == WithoutRedundantSpaces(o, i + 1);
  }

  /** Two characters in front of a string. */
  lemma Cons2(a: char, b: char, x: string, y: string, z: string)
    requires x == [a] + y && y == [b] + z
    ensures x == [a, b] + z
  {
  }

  /** A character that is not a space is kept. */
  lemma CopyStep(o: string, p: nat)
    requires p < |o| && o[p] != ' '
    ensures WithoutRedundantSpaces(o, p) == [o[p]] + WithoutRedundantSpaces(o, p + 1)
  {
    KeptAt(o, p);
  }

  /** A backslash and the character after it are kept: that character
      follows no hexadecimal digit. */
  lemma PairStep(o: string, p: nat)
    requires p + 1 < |o| && o[p] == '\\'
    ensures WithoutRedundantSpaces(o, p) == [o[p], o[p + 1]] + WithoutRedundantSpaces(o, p + 2)
  {
    KeptAt(o, p);
    assert UpperHexBefore(o, p + 1) == 0;
    KeptAt(o, p + 1);
    Cons2(o[p], o[p + 1], WithoutRedundantSpaces(o, p), WithoutRedundantSpaces(o, p + 1), WithoutRedundantSpaces(o, p + 2));
  }

  /** The space of a control character's escape `\X ` after an even run of
      backslashes is redundant exactly when no hexadecimal digit or space
      follows. */
  lemma ControlSpace(o: string, p: nat)
    requires p + 2 < |o| && o[p] == '\\' && IsUpperHex(o[p + 1]) && o[p + 2] == ' '
    requires EvenRunBefore(o, p)
    ensures RedundantSpace(o, p + 2) <==> p + 3 == |o| || !IsHexOrSpace(o[p + 3])
  {
    assert UpperHexBefore(o, p + 1) == 0;
    assert UpperHexBefore(o, p + 2) == 1;
    EvenRunParity(o, p + 1);
  }

  /** A control character's escape `\X ` after an even run of backslashes
      loses its space exactly when no hexadecimal digit or space follows. */
  lemma ControlStep(o: string, p: nat)
    requires p + 2 < |o| && o[p] == '\\' && IsUpperHex(o[p + 1]) && o[p + 2] == ' '
    requires EvenRunBefore(o, p)
    ensures WithoutRedundantSpaces(o, p)
         == [o[p], o[p + 1]] + ((if p + 3 == |o| || !IsHexOrSpace(o[p + 3]) then [] else [' '])
                                + WithoutRedundantSpaces(o, p + 3))
  {
    PairStep(o, p);
    ControlSpace(o, p);
    if RedundantSpace(o, p + 2) {
      DroppedAt(o, p + 2);
      assert [] + WithoutRedundantSpaces(o, p + 3) == WithoutRedundantSpaces(o, p + 3);
    } else {
      KeptAt(o, p + 2);
    }
  }

  /** `x` after two characters, then a third. */
  lemma Cons3(a: char, b: char, c: char, x: string, y: string, z: string)
    requires x == [a, b] + y && y == [c] + z
    ensures x == [a, b, c] + z
  {
  }

  lemma AppendAssoc(a: string, b: string, c: string)
    ensures a + (b + c) == (a + b) + c
  {
  }

  lemma EmptyLeft(x: string)
    ensures [] + x == x
  {
  }

  /** The re-encoding of a control character, all of which are below 16. */
  lemma ControlEscape(c: char)
    requires IsEscapedControl(c)
    ensures EscapeChar(c) == ['\\', UpperHexDigit(c as int), ' ']
  {
    assert UpperHex(c as int) == [UpperHexDigit(c as int)];
  }

  /** Whether the next re-encoded character starts with a hexadecimal digit
      or a space is whether the next input character is a hexadecimal
      digit. */
  lemma NextLead(o: string, q: nat, rest: string)
    requires q <= |o| && o[q..] == EscapeChars(rest)
    ensures (q < |o| && IsHexOrSpace(o[q])) <==> KeepsSpace(rest)
  {
    if rest != [] {
      EscapeCharsLead(rest);
      EscapeCharLead(rest[0]);
      assert o[q] == o[q..][0];
    } else {
      assert q == |o|;
    }
  }

  /** A copied character. */
  lemma CopyToken(o: string, p: nat, c: char, rest: string)
    requires p < |o| && o[p] == c
    requires !IsEscapedControl(c) && c != '\\' && !IsSingleEscape(c)
    ensures WithoutRedundantSpaces(o, p) == Token(c, rest) + WithoutRedundantSpaces(o, p + 1)
    ensures BackslashesBefore(o, p + 1) == 0
  {
    CopyStep(o, p);
  }

  /** A backslash or a single-escape character behind a backslash. */
  lemma PairToken(o: string, p: nat, c: char, rest: string)
    requires p + 1 < |o| && o[p] == '\\' && o[p + 1] == c
    requires !IsEscapedControl(c) && (c == '\\' || IsSingleEscape(c))
    requires EvenRunBefore(o, p)
    ensures WithoutRedundantSpaces(o, p) == Token(c, rest) + WithoutRedundantSpaces(o, p + 2)
    ensures EvenRunBefore(o, p + 2)
  {
    PairStep(o, p);
    PairShape(c, rest);
    assert [o[p], o[p + 1]] == ['\\', c];
  }

  lemma PairShape(c: char, rest: string)
    requires !IsEscapedControl(c) && (c == '\\' || IsSingleEscape(c))
    ensures Token(c, rest) == ['\\', c]
  {
  }

  /** A control character's escape: its space stays only in front of a
      hexadecimal digit of the input. */
  lemma ControlToken(o: string, p: nat, c: char, rest: string)
    requires IsEscapedControl(c)
    requires p + 2 < |o| && o[p] == '\\' && o[p + 1] == UpperHexDigit(c as int) && o[p + 2] == ' '
    requires o[p + 3..] == EscapeChars(rest)
    requires EvenRunBefore(o, p)
    ensures WithoutRedundantSpaces(o, p) == Token(c, rest) + WithoutRedundantSpaces(o, p + 3)
    ensures BackslashesBefore(o, p + 3) == 0
  {
    var x := WithoutRedundantSpaces(o, p + 3);
    ControlStep(o, p);
    NextLead(o, p + 3, rest);
    if KeepsSpace(rest) {
      Cons3(o[p], o[p + 1], ' ', WithoutRedundantSpaces(o, p), [' '] + x, x);
    } else {
      EmptyLeft(x);
    }
  }

  /** One re-encoded character at `p`, after an even run of backslashes,
      comes out as its token, and the run before the next one is even. */
  lemma TokenStep(o: string, p: nat, c: char, rest: string)
    requires p <= |o| && o[p..] == EscapeChar(c) + EscapeChars(rest)
    requires EvenRunBefore(o, p)
    ensures p + |EscapeChar(c)| <= |o|
    ensures o[p + |EscapeChar(c)|..] == EscapeChars(rest)
    ensures WithoutRedundantSpaces(o, p)
         == Token(c, rest) + WithoutRedundantSpaces(o, p + |EscapeChar(c)|)
    ensures EvenRunBefore(o, p + |EscapeChar(c)|)
  {
    if IsEscapedControl(c) {
      ControlEscape(c);
      ControlCase(o, p, c, rest);
    } else if c == '\\' || IsSingleEscape(c) {
      assert EscapeChar(c) == ['\\', c];
      PairCase(o, p, c, rest);
    } else {
      assert EscapeChar(c) == [c];
      CopyCase(o, p, c, rest);
    }
  }

  lemma ControlCase(o: string, p: nat, c: char, rest: string)
    requires IsEscapedControl(c)
    requires p <= |o| && o[p..] == ['\\', UpperHexDigit(c as int), ' '] + EscapeChars(rest)
    requires EvenRunBefore(o, p)
    ensures p + 3 <= |o| && o[p + 3..] == EscapeChars(rest)
    ensures WithoutRedundantSpaces(o, p) == Token(c, rest) + WithoutRedundantSpaces(o, p + 3)
    ensures EvenRunBefore(o, p + 3)
  {
    assert o[p + 3..] == o[p..][3..];
    assert o[p] == o[p..][0] && o[p + 1] == o[p..][1] && o[p + 2] == o[p..][2];
    ControlToken(o, p, c, rest);
  }

  lemma PairCase(o: string, p: nat, c: char, rest: string)
    requires !IsEscapedControl(c) && (c == '\\' || IsSingleEscape(c))
    requires p <= |o| && o[p..] == ['\\', c] + EscapeChars(rest)
    requires EvenRunBefore(o, p)
    ensures p + 2 <= |o| && o[p + 2..] == EscapeChars(rest)
    ensures WithoutRedundantSpaces(o, p) == Token(c, rest) + WithoutRedundantSpaces(o, p + 2)
    ensures EvenRunBefore(o, p + 2)
  {
    assert o[p + 2..] == o[p..][2..];
    assert o[p] == o[p..][0] && o[p + 1] == o[p..][1];
    PairToken(o, p, c, rest);
  }

  lemma CopyCase(o: string, p: nat, c: char, rest: string)
    requires !IsEscapedControl(c) && c != '\\' && !IsSingleEscape(c)
    requires p <= |o| && o[p..] == [c] + EscapeChars(rest)
    ensures p + 1 <= |o| && o[p + 1..] == EscapeChars(rest)
    ensures WithoutRedundantSpaces(o, p) == Token(c, rest) + WithoutRedundantSpaces(o, p + 1)
    ensures EvenRunBefore(o, p + 1)
  {
    assert o[p + 1..] == o[p..][1..];
    assert o[p] == o[p..][0];
    CopyToken(o, p, c, rest);
  }

  /** A stretch of re-encoded characters after an even run of backslashes
      comes out as the tokens of those characters. */
  lemma {:induction false} TokensWithout(o: string, p: nat, u: string)
    requires p <= |o| && o[p..] == EscapeChars(u)
    requires EvenRunBefore(o, p)
    ensures WithoutRedundantSpaces(o, p) == Tokens(u)
    decreases |u|
  {
    if u == [] {
      assert p == |o|;
    } else {
      TokenStep(o, p, u[0], u[1..]);
      TokensWithout(o, p + |EscapeChar(u[0])|, u[1..]);
    }
  }

  /** The fix-up `\3d ` of a leading digit: its space is redundant exactly
      when no hexadecimal digit or space follows. */
  lemma DigitSpace(f: string)
    requires |f| >= 4 && f[0] == '\\' && f[1] == '3' && IsDigit(f[2]) && f[3] == ' '
    ensures RedundantSpace(f, 3) <==> |f| == 4 || !IsHexOrSpace(f[4])
  {
    assert UpperHexBefore(f, 1) == 0;
    assert UpperHexBefore(f, 3) == 2;
    assert BackslashesBefore(f, 1) == 1;
  }

  lemma DigitFixStep(f: string)
    requires |f| >= 4 && f[0] == '\\' && f[1] == '3' && IsDigit(f[2]) && f[3] == ' '
    ensures WithoutRedundantSpaces(f, 0)
         == [f[0], f[1], f[2]]
            + ((if |f| == 4 || !IsHexOrSpace(f[4]) then [] else [' ']) + WithoutRedundantSpaces(f, 4))
    ensures BackslashesBefore(f, 4) == 0
  {
    var x := WithoutRedundantSpaces(f, 4);
    PairStep(f, 0);
    CopyStep(f, 2);
    DigitSpace(f);
    if RedundantSpace(f, 3) {
      DroppedAt(f, 3);
      EmptyLeft(x);
    } else {
      KeptAt(f, 3);
    }
    Cons3(f[0], f[1], f[2], WithoutRedundantSpaces(f, 0), WithoutRedundantSpaces(f, 2), WithoutRedundantSpaces(f, 3));
  }

  /** The three steps of `escape` compose to the token form. */
  lemma EscapedCompact(s: string)
    ensures Escaped(s) == Compact(s)
  {
    if s == [] {
      assert FixLeading(s, EscapeChars(s)) == [];
    } else if StartsWithDashDigitOrDash(EscapeChars(s)) {
      DashFix(s);
    } else if IsDigit(s[0]) {
      DigitFix(s);
    } else {
      PlainStart(s);
      TokensWithout(EscapeChars(s), 0, s);
    }
  }

  /** Re-encoding keeps a leading `-` followed by a digit or `-`, and
      nothing else looks like one. */
  lemma StartsWithDashDigitOrDashEscaped(s: string)
    ensures StartsWithDashDigitOrDash(EscapeChars(s)) <==> StartsWithDashDigitOrDash(s)
  {
    if s != [] {
      EscapeCharHead(s[0]);
      assert EscapeChars(s) == EscapeChar(s[0]) + EscapeChars(s[1..]);
      if s[0] == '-' {
        assert EscapeChar(s[0]) == ['-'];
        if s[1..] != [] {
          EscapeCharsLead(s[1..]);
          EscapeCharHead(s[1]);
        }
      }
    }
  }

  lemma PlainStart(s: string)
    requires s != [] && !StartsWithDashDigitOrDash(EscapeChars(s)) && !IsDigit(s[0])
    ensures FixLeading(s, EscapeChars(s)) == EscapeChars(s)
    ensures !StartsWithDashDigitOrDash(s)
  {
    StartsWithDashDigitOrDashEscaped(s);
  }

  /** The fix-up of a leading `-` followed by a digit or `-`. */
  lemma DashFix(s: string)
    requires StartsWithDashDigitOrDash(EscapeChars(s))
    ensures Escaped(s) == Compact(s)
  {
    StartsWithDashDigitOrDashEscaped(s);
    DashLeading(s);
    DashTokens(['\\', '-'] + EscapeChars(s[1..]), s[1..]);
  }

  lemma DashLeading(s: string)
    requires StartsWithDashDigitOrDash(s)
    ensures FixLeading(s, EscapeChars(s)) == ['\\', '-'] + EscapeChars(s[1..])
  {
    StartsWithDashDigitOrDashEscaped(s);
    assert EscapeChars(s) == ['-'] + EscapeChars(s[1..]);
  }

  lemma DashTokens(f: string, rest: string)
    requires f == ['\\', '-'] + EscapeChars(rest)
    ensures WithoutRedundantSpaces(f, 0) == ['\\', '-'] + Tokens(rest)
  {
    assert f[2..] == EscapeChars(rest);
    PairStep(f, 0);
    TokensWithout(f, 2, rest);
  }

  /** The fix-up of a leading digit. */
  lemma DigitFix(s: string)
    requires s != [] && IsDigit(s[0]) && !StartsWithDashDigitOrDash(EscapeChars(s))
    ensures Escaped(s) == Compact(s)
  {
    StartsWithDashDigitOrDashEscaped(s);
    DigitLeading(s);
    DigitTokens(['\\', '3', s[0], ' '] + EscapeChars(s[1..]), s[0], s[1..]);
  }

  lemma DigitLeading(s: string)
    requires s != [] && IsDigit(s[0]) && !StartsWithDashDigitOrDash(EscapeChars(s))
    ensures FixLeading(s, EscapeChars(s)) == ['\\', '3', s[0], ' '] + EscapeChars(s[1..])
  {
    assert EscapeChars(s) == [s[0]] + EscapeChars(s[1..]);
  }

  lemma DigitTokens(f: string, d: char, rest: string)
    requires IsDigit(d) && f == ['\\', '3', d, ' '] + EscapeChars(rest)
    ensures WithoutRedundantSpaces(f, 0)
         == ['\\', '3', d] + (if KeepsSpace(rest) then [' '] else []) + Tokens(rest)
  {
    assert f[4..] == EscapeChars(rest);
    DigitFixStep(f);
    NextLead(f, 4, rest);
    TokensWithout(f, 4, rest);
    AppendAssoc(['\\', '3', d], if KeepsSpace(rest) then [' '] else [], Tokens(rest));
  }
}
