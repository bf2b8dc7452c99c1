/** `unescape` undoes `escape`: every identifier `escape` produces decodes
    back to the string it was produced from. The proof reads the output of
    `escape` in its token form (module EscapeTokens) and decodes it one
    token at a time. */
module EscapeRoundTrip {
  import opened Chars
  import opened CssEscape
  import opened CssUnescape
  import opened EscapeTokens

  /** The characters of the single-escape class are neither hexadecimal
      digits nor backslashes, so `unescape` keeps them as they are. */
  lemma SingleEscapeNotHex(c: char)
    requires IsSingleEscape(c)
    ensures !IsHexDigit(c) && c != '\\'
  {
  }

  /** A control character written as one upper-case hexadecimal digit
      reads back as itself. */
  lemma ControlDigitDecodes(c: char)
    requires IsEscapedControl(c)
    ensures AllHex([UpperHexDigit(c as int)])
    ensures CodePointChar(HexValue([UpperHexDigit(c as int)])) == c
  {
    var d := UpperHexDigit(c as int);
    assert [d][..0] == [];
  }

  /** The `3d` of the fix-up of a leading digit `d` reads back as `d`. */
  lemma LeadingDigitDecodes(d: char)
    requires IsDigit(d)
    ensures AllHex(['3', d])
    ensures CodePointChar(HexValue(['3', d])) == d
  {
    assert ['3', d][..1] == ['3'];
    assert ['3'][..0] == [];
  }

  /** What follows a token: a hexadecimal digit or a space only when the
      next input character is a hexadecimal digit. */
  lemma {:induction false} NextTokenLead(w: string, q: nat, rest: string)
    requires q <= |w| && w[q..] == Tokens(rest)
    ensures (q < |w| && IsHexOrSpace(w[q])) <==> KeepsSpace(rest)
  {
    if rest != [] {
      TokensLead(rest);
      TokenLead(rest[0], rest[1..]);
      assert w[q] == w[q..][0];
    }
  }

  /** One token decodes to its character, and decoding resumes right after
      it. */
  lemma TokenRoundTrip(w: string, p: nat, c: char, rest: string)
    requires p <= |w| && w[p..] == Token(c, rest) + Tokens(rest)
    ensures p + |Token(c, rest)| <= |w|
    ensures w[p + |Token(c, rest)|..] == Tokens(rest)
    ensures UnescapedFrom(w, p) == [c] + UnescapedFrom(w, p + |Token(c, rest)|)
  {
    var t := Token(c, rest);
    assert w[p + |t|..] == w[p..][|t|..];
    if IsEscapedControl(c) {
      NextTokenLead(w, p + |t|, rest);
      ControlTokenRoundTrip(w, p, c, rest);
    } else if c == '\\' || IsSingleEscape(c) {
      PairShape(c, rest);
      PairTokenRoundTrip(w, p, c, w[p + 2..]);
    } else {
      assert t == [c];
      PlainTokenRoundTrip(w, p, c, w[p + 1..]);
    }
  }

  /** `\\` or a backslash and a character of the single-escape class. */
  lemma PairTokenRoundTrip(w: string, p: nat, c: char, r: string)
    requires c == '\\' || IsSingleEscape(c)
    requires p <= |w| && w[p..] == ['\\', c] + r
    ensures UnescapedFrom(w, p) == [c] + UnescapedFrom(w, p + 2)
  {
    assert w[p] == w[p..][0] && w[p + 1] == w[p..][1];
    if c == '\\' {
      UnescapedDoubleBackslash(w, p);
    } else {
      SingleEscapeNotHex(c);
      UnescapedOtherEscape(w, p);
    }
  }

  /** A character copied by `escape` is copied back. */
  lemma PlainTokenRoundTrip(w: string, p: nat, c: char, r: string)
    requires c != '\\'
    requires p <= |w| && w[p..] == [c] + r
    ensures UnescapedFrom(w, p) == [c] + UnescapedFrom(w, p + 1)
  {
    assert w[p] == w[p..][0];
    UnescapedFromPlain(w, p);
  }

  lemma ControlTokenRoundTrip(w: string, p: nat, c: char, rest: string)
    requires IsEscapedControl(c)
    requires p <= |w| && w[p..] == Token(c, rest) + Tokens(rest)
    requires w[p + |Token(c, rest)|..] == Tokens(rest)
    requires (p + |Token(c, rest)| < |w| && IsHexOrSpace(w[p + |Token(c, rest)|])) <==> KeepsSpace(rest)
    ensures UnescapedFrom(w, p) == [c] + UnescapedFrom(w, p + |Token(c, rest)|)
  {
    var d := UpperHexDigit(c as int);
    assert w[p] == w[p..][0] && w[p + 1] == w[p..][1];
    assert w[p + 1..p + 2] == [d];
    ControlDigitDecodes(c);
    if KeepsSpace(rest) {
      assert w[p + 2] == w[p..][2];
      UnescapedHexEscape(w, p, 1);
    } else {
      UnescapedHexEscape(w, p, 1);
    }
  }

  /** A stretch of tokens decodes to the characters they were made from. */
  lemma {:induction false} TokensRoundTrip(w: string, p: nat, u: string)
    requires p <= |w| && w[p..] == Tokens(u)
    ensures UnescapedFrom(w, p) == u
    decreases |u|
  {
    if u == [] {
      assert p == |w|;
      assert UnescapedFrom(w, p) == [];
    } else {
      var n := |Token(u[0], u[1..])|;
      assert Tokens(u) == Token(u[0], u[1..]) + Tokens(u[1..]);
      TokenRoundTrip(w, p, u[0], u[1..]);
      TokensRoundTrip(w, p + n, u[1..]);
      assert UnescapedFrom(w, p) == [u[0]] + UnescapedFrom(w, p + n);
      assert UnescapedFrom(w, p + n) == u[1..];
      assert u == [u[0]] + u[1..];
    }
  }

  /** `unescape(escape(s)) == s` for every string `s`. */
  lemma UnescapeEscape(s: string)
    ensures Unescaped(Escaped(s)) == s
  {
    EscapedCompact(s);
    var w := Compact(s);
    if StartsWithDashDigitOrDash(s) {
      assert w[..2] == ['\\', '-'] && w[2..] == Tokens(s[1..]);
      UnescapedOtherEscape(w, 0);
      TokensRoundTrip(w, 2, s[1..]);
    } else if |s| >= 1 && IsDigit(s[0]) {
      DigitRoundTrip(s);
    } else {
      TokensRoundTrip(w, 0, s);
    }
  }

  lemma DigitRoundTrip(s: string)
    requires |s| >= 1 && IsDigit(s[0]) && !StartsWithDashDigitOrDash(s)
    ensures UnescapedFrom(Compact(s), 0) == s
  {
    var rest := s[1..];
    var k := if KeepsSpace(rest) then 4 else 3;
    DigitPrefixRoundTrip(Compact(s), s[0], rest, k);
    TokensRoundTrip(Compact(s), k, rest);
    assert s == [s[0]] + rest;
  }

  /** The fix-up `\3d` of a leading digit, with its space when one is
      kept, decodes to the digit. */
  lemma DigitPrefixRoundTrip(w: string, d: char, rest: string, k: nat)
    requires IsDigit(d) && k == (if KeepsSpace(rest) then 4 else 3)
    requires w == ['\\', '3', d] + (if KeepsSpace(rest) then [' '] else []) + Tokens(rest)
    ensures k <= |w| && w[k..] == Tokens(rest)
    ensures UnescapedFrom(w, 0) == [d] + UnescapedFrom(w, k)
  {
    assert w[1..3] == ['3', d];
    assert w[k..] == Tokens(rest);
    NextTokenLead(w, k, rest);
    LeadingDigitDecodes(d);
    UnescapedHexEscape(w, 0, 2);
  }
}
