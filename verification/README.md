# Scoped class names of babel-plugin-react-css-modules, in Dafny

This project models how the plugin turns a CSS class name into its scoped
name. The model is written in Dafny and its properties are proved.

- **`escape`** turns a string into a CSS identifier. It re-encodes every
  character, fixes up a leading `-` or digit, and drops the spaces after hex
  escapes that are redundant.
- **`gobbleHex` and `unescape`** decode CSS escapes. They follow section
  4.3.7 ("consume an escaped code point") of CSS Syntax Module Level 3.
- **`escapeLocalIdent`** normalises a name and then escapes it.
- **`getLocalIdent`**, the function the plugin takes from css-loader 5.2.4,
  does the following:
  - it stores the content string in the options object;
  - it reads and rewrites the `[algorithm:hash:digest:length]` placeholder;
  - it hashes the content and makes the digest safe;
  - it calls webpack's template expander;
  - it substitutes `[local]` and the `[N]` groups of the `regExp` option;
  - it escapes the result.
- **`getFiletypeOptions`** and the **`generateScopedName` dispatch** of
  src/requireCssModule.js. The dispatch uses a user's function as it is.
  Otherwise it calls `getLocalIdent` on the unescaped class name with
  webpack's default hash settings.

The model follows the code's own steps:

- The loops of `escape`, `gobbleHex`, `unescape` and `getLocalIdent` are
  methods with loops. Each is proved equal to a declarative function of its
  input, and the properties are lemmas about those functions.
- The pure replace chains are functions.
- The options object that `getLocalIdent` updates is a class.

The foreign calls are fields of a `Host` value that the model takes as a
parameter:

- the hash (`createHash`, `update`, `digest`);
- webpack's `getPath`;
- Node's `path.relative`, `path.extname`, `path.basename` and `path.sep`;
- the match of the `regExp` option.

Where the model and a plain-language description of the system could
differ, the model follows the code:

- `unescape` turns `\\` into a single backslash (src/getLocalIdent.js:168-174).
  It does not keep a doubled one.
- The digest is cut to length first. Then each `+` and `/` becomes `_`, and
  finally one leading digit becomes `_`. Nothing else is stripped, and there
  is no tiered hashing.
- The guard and the replacement of reserved characters apply to the whole
  interpolated identifier.

The files:

- `chars.dfy`: character classes and digit conversions.
- `js_string.dfy`: the JavaScript string operations used, as `Wrappers` and
  `JsString`:
  - `slice`;
  - `lastIndexOf`;
  - `replace` with a replacement string (including its `$` patterns);
  - a global `replace` with a callback;
  - `match`.
- `css_escape.dfy`, `escape_tokens.dfy`: `escape`, and its token form.
- `css_unescape.dfy`: `gobbleHex` and `unescape`.
- `escape_round_trip.dfy`: `unescape(escape(s)) == s`.
- `hash_placeholder.dfy`: the placeholder expression, the overrides, the
  rewrite, the shape of every match, and reading back a written
  placeholder at the start of a template or after other text.
- `local_ident.dfy`: `escapeLocalIdent` and `getLocalIdent`.
- `require_css_module.dfy`: `getFiletypeOptions` and the dispatch.

## Model

| member | source | states |
|---|---|---|
| Chars.UpperHex | src/getLocalIdent.js:75 | `codePoint.toString(16).toUpperCase()` is non-empty, made of upper-case hex digits, and reads back as the code point |
| Chars.DecimalString | src/getLocalIdent.js:297 | the decimal digits of a group index read back as the index |
| Chars.HexValueRespectsDigitValues | src/getLocalIdent.js:110-134 | digits with equal values, such as the lower-cased ones `gobbleHex` reads, give the same `parseInt(hex, 16)` |
| JsString.RelativeIndex | src/getLocalIdent.js:270 | a `slice` index inside the string is kept, a negative one counts back from the end, and one past either end is clamped to the length or to 0 |
| JsString.LastIndexOf | src/requireCssModule.js:52 | the result is the last position holding the character, or -1 exactly when the character does not occur |
| JsString.Substitution | src/getLocalIdent.js:290 | a replacement string without `$` is inserted as it is |
| JsString.ReplaceAllNoMatch | src/getLocalIdent.js:290 | a global case-insensitive replace changes nothing when the pattern does not occur |
| JsString.ReplaceAllFromFirstMatch | src/getLocalIdent.js:290 | the text before the first occurrence is copied, the occurrence is replaced, and the scan resumes after it |
| JsString.ReplaceAllSingle | src/getLocalIdent.js:290 | a pattern that occurs once is replaced there, and the text around it is kept |
| JsString.LeftmostFromIsLeftmost | src/getLocalIdent.js:236-238 | `match` returns the leftmost match: none starts before it, and none at all when it finds none |
| JsString.ReplaceMatchesFromNone | src/getLocalIdent.js:251-256 | a global replace with a callback and no match returns the string unchanged |
| JsString.ReplaceMatchesFromLeftmost | src/getLocalIdent.js:251-256 | a global replace with a callback keeps the text before the leftmost match, inserts the callback's text for the match, and resumes after it |
| JsString.LeftmostFromFirst | src/getLocalIdent.js:251-256 | the scan for the leftmost match from `p` finds `m` when a match starts at `m` and none starts between `p` and `m` |
| CssEscape.EscapeCharsAppend | src/getLocalIdent.js:66-83 | the loop treats each character on its own: re-encoding a concatenation concatenates the re-encodings |
| CssEscape.EscapeCharCases | src/getLocalIdent.js:72-80 | tab, LF, VT, FF and CR become `\`, the upper-case hex code point and a space; `\` and the single-escape class become `\` and the character; anything else is copied |
| CssEscape.EscapeCharHead | src/getLocalIdent.js:66-87 | a re-encoded character starts with itself or `\`, never with a space, and starts with a digit or `-` exactly when the character is one |
| CssEscape.RemoveExcessiveSpacesExactly | src/getLocalIdent.js:59-104 | the global replace with the callback removes exactly the redundant spaces. A redundant space ends a `\` + 1-6 upper-case hex escape whose backslash is not escaped, and no hex digit or space follows it |
| CssEscape.Escape | src/getLocalIdent.js:62-107 | the loop, the leading fix-up and the space removal compute `Escaped` of the input |
| EscapeTokens.KeptAt | src/getLocalIdent.js:93-104 | a character that is not a redundant space is kept |
| EscapeTokens.DroppedAt | src/getLocalIdent.js:93-104 | a redundant space is dropped |
| EscapeTokens.StartsWithDashDigitOrDashEscaped | src/getLocalIdent.js:85-87 | the loop's output starts with `-` and a digit or `-` exactly when the input does |
| EscapeTokens.DashFix | src/getLocalIdent.js:87-88 | the `\-` fix-up of a leading `-digit` or `--` yields the token form |
| EscapeTokens.DigitFix | src/getLocalIdent.js:89-90 | the `\3d ` fix-up of a leading digit yields the token form |
| EscapeTokens.EscapedCompact | src/getLocalIdent.js:62-107 | the three steps of `escape` compose to the token form `Compact` |
| EscapeTokens.CompactValidStart | src/getLocalIdent.js:85-91 | the output of `escape` starts neither with a digit nor with `-` followed by a digit or `-` |
| EscapeRoundTrip.TokensRoundTrip | src/getLocalIdent.js:151-189 | a stretch of escape tokens decodes to the characters they were made from |
| EscapeRoundTrip.UnescapeEscape | src/getLocalIdent.js:62-189 | `unescape(escape(s)) == s` for every string |
| CssUnescape.GobbleHex | src/getLocalIdent.js:109-149 | the loop over at most six lower-cased characters computes `GobbleResult` of its input |
| CssUnescape.GobbleResultNone | src/getLocalIdent.js:130-132 | `gobbleHex` returns `undefined` exactly when its input is empty or does not start with a hex digit |
| CssUnescape.GobbleResultDigits | src/getLocalIdent.js:114-148 | for a maximal run of 1-6 hex digits: the decoded character, U+FFFD for 0, surrogates or above 0x10FFFF; the count is the run plus one only for a space after fewer than six digits |
| CssUnescape.GobbleAtDigits | src/getLocalIdent.js:114-148 | the same, read in place at a position of the string |
| CssUnescape.Turn | src/getLocalIdent.js:158-186 | one turn of the loop advances the index and appends at most one character |
| CssUnescape.UnescapeBackslash | src/getLocalIdent.js:159-183 | the loop body at a backslash appends and skips what `Turn` says |
| CssUnescape.Unescape | src/getLocalIdent.js:151-189 | the loop computes `Unescaped` of its input |
| CssUnescape.UnescapedWithoutBackslash | src/getLocalIdent.js:152-154 | a string without a backslash is returned unchanged |
| CssUnescape.UnescapedHexEscape | src/getLocalIdent.js:159-166 | `\` and 1-6 hex digits decode to their code point or U+FFFD, and a terminating space is consumed only after fewer than six digits |
| CssUnescape.TurnHexEscape | src/getLocalIdent.js:159-166 | the same for one turn of the loop |
| CssUnescape.UnescapedDoubleBackslash | src/getLocalIdent.js:168-174 | `\\` yields one backslash |
| CssUnescape.UnescapedOtherEscape | src/getLocalIdent.js:159-182 | a backslash before a character that is neither hex nor `\` is dropped and the character kept |
| CssUnescape.UnescapedFromPlain | src/getLocalIdent.js:185 | any other character is copied |
| CssUnescape.UnescapedTrailingBackslash | src/getLocalIdent.js:176-180 | a backslash that ends the string is kept, whatever escapes come before it |
| CssUnescape.UnescapedLoneTrailingBackslash | src/getLocalIdent.js:151-189 | a string whose only backslash ends it is returned unchanged |
| CssUnescape.UnescapedFromLength | src/getLocalIdent.js:151-189 | decoding never lengthens a string |
| HashPlaceholder.NonSeparatorRun | src/getLocalIdent.js:237 | `[^:\]]+` stops only at `:`, `]` or the end |
| HashPlaceholder.LetterRun | src/getLocalIdent.js:237 | `[a-z]+` under the `i` flag stops only at a non-letter or the end |
| HashPlaceholder.DigitRun | src/getLocalIdent.js:237 | `\d*` stops only at a non-digit or the end |
| HashPlaceholder.DigitRunDigits | src/getLocalIdent.js:237 | what `\d*` consumed are digits |
| HashPlaceholder.NameLength | src/getLocalIdent.js:237 | the hash name group is `hash`, `contenthash` or `fullhash` (4, 11 or 8 characters) or absent, and what it reads is one of those names in some ASCII case |
| HashPlaceholder.RestOf | src/getLocalIdent.js:237 | the groups after the prefix end inside the text, and the name read is the hash name the text starts with |
| HashPlaceholder.RestOfCloses | src/getLocalIdent.js:237 | what the groups consume ends with the closing `]`, after the hash name |
| HashPlaceholder.MatchFront | src/getLocalIdent.js:237 | a match at the front of a text starts with `[` and ends inside the text |
| HashPlaceholder.MatchAt | src/getLocalIdent.js:236-238 | a match at `p` starts with `[` and ends inside the template |
| HashPlaceholder.FrontShape | src/getLocalIdent.js:237 | whatever is matched at the front is written as a placeholder: `[`, a valid algorithm and its `:` when one was read, the hash name, and a closing `]` where the match ends |
| HashPlaceholder.MatchAtShape | src/getLocalIdent.js:236-238 | whatever is matched at any position is written as a placeholder there, in the same sense |
| HashPlaceholder.MatchAtShift | src/getLocalIdent.js:236-238 | the expression does not look behind: a match at `p` in `s` is the match in `x + s` at `p` plus the length of `x`, moved by that length, and there is none there where `s` has none at `p` |
| HashPlaceholder.NoMatchInPlainText | src/getLocalIdent.js:236-238 | no match starts inside text without `[`, whatever follows it |
| HashPlaceholder.PlaceholderEnds | src/getLocalIdent.js:252 | the placeholder expression's matches are non-empty and inside the template |
| HashPlaceholder.FirstMatch | src/getLocalIdent.js:236-238 | the match found is a match at its own start |
| HashPlaceholder.FirstMatchLeftmost | src/getLocalIdent.js:236-238 | no placeholder starts before the first match, and none at all when there is none |
| HashPlaceholder.FirstMatchAt | src/getLocalIdent.js:236-238 | a match with none before it is the first match |
| HashPlaceholder.Replacement | src/getLocalIdent.js:254 | the rewrite is `[fullhash]` exactly when the first hash name is written `fullhash`, otherwise `[contenthash]` |
| HashPlaceholder.Override | src/getLocalIdent.js:241-246 | each group that took part overrides its setting (algorithm, digest, length read as a number), the others keep theirs |
| HashPlaceholder.RewriteNoMatch | src/getLocalIdent.js:251-256 | a template without a placeholder is not rewritten |
| HashPlaceholder.RewriteFirst | src/getLocalIdent.js:251-256 | the text before the first placeholder is kept and the placeholder replaced |
| HashPlaceholder.ApplyPlaceholdersNoBracket | src/getLocalIdent.js:236-257 | a template without `[` keeps its text and the configured hash settings |
| HashPlaceholder.ParseRender | src/getLocalIdent.js:237 | a written placeholder, followed by anything, is matched at its start with the groups it was written from and ends where it was written; without an algorithm this holds for every digest that does not begin with a hash name, `[hash:base64:5]` among them |
| HashPlaceholder.ApplyRenderedPlaceholder | src/getLocalIdent.js:236-257 | a template starting with a written placeholder takes the algorithm, digest and length written there, or keeps the configured ones where none is written, and is rewritten by that hash name |
| HashPlaceholder.ApplyPlaceholderAfter | src/getLocalIdent.js:236-257 | the same for a written placeholder after any text in which no match starts |
| HashPlaceholder.ApplyPlaceholderAfterPlainText | src/getLocalIdent.js:236-257 | the same for a written placeholder after text without `[` |
| LocalIdent.ReplaceClassPointwise | src/getLocalIdent.js:197-199 | `replace(/[class]/g, c)` replaces each character of the class by `c`, keeps the others and keeps the length |
| LocalIdent.GuardedGuards | src/getLocalIdent.js:196 | `_` is put in front exactly when the name starts with a digit, `-digit` or `--`; afterwards nothing is left to guard, and guarding twice is guarding once |
| LocalIdent.SanitizedPointwise | src/getLocalIdent.js:197-199 | reserved filename characters, control characters and dots become `-`; every other character is kept in place |
| LocalIdent.NormalisedIsSafe | src/getLocalIdent.js:191-201 | the name `escape` receives has no reserved character, control character or dot and no leading digit, and is one longer exactly when it was guarded |
| LocalIdent.NormalisedIdentity | src/getLocalIdent.js:191-201 | a name with nothing to guard or replace reaches `escape` unchanged |
| LocalIdent.EscapeLocalIdentDecodes | src/getLocalIdent.js:191-201 | unescaping the result gives the normalised name back |
| LocalIdent.EscapeLocalIdentStart | src/getLocalIdent.js:191-201 | the result starts neither with a digit nor with `-` followed by a digit or `-` |
| LocalIdent.NormalizePath | src/getLocalIdent.js:54-56 | with a `\` separator, every `\` becomes `/` and nothing else changes; otherwise the path is kept |
| LocalIdent.NulIndexAfter | src/getLocalIdent.js:228-229 | in the content string, the first NUL is the one after the resource path |
| LocalIdent.ContentDeterminesParts | src/getLocalIdent.js:228-229 | for NUL-free paths, equal contents with the same match-resource part have equal paths and equal local names |
| LocalIdent.LeadingDigitReplacedShape | src/getLocalIdent.js:272 | `replace(/^\d/g, '_')` replaces a leading digit only |
| LocalIdent.SafeDigest | src/getLocalIdent.js:268-272 | the digest is cut to `min(length, |digest|)` characters and has no `+` or `/` and no leading digit; character by character it is the digest with `+` and `/`, and a leading digit, turned into `_` |
| LocalIdent.BaseName | src/getLocalIdent.js:279 | the name is a prefix of the base name |
| LocalIdent.BaseNameStripsExtension | src/getLocalIdent.js:277-279 | when the extension ends the base name, the name is the base name without it |
| LocalIdent.IndexPattern | src/getLocalIdent.js:297 | the pattern of group `i` starts with `[` |
| LocalIdent.NoBracketNoMatch | src/getLocalIdent.js:290-297 | a pattern starting with `[` does not occur, under case folding, in a string without `[` |
| LocalIdent.SubstituteLocalNoBracket | src/getLocalIdent.js:290 | an identifier without `[` has no `[local]` to substitute |
| LocalIdent.SubstituteLocalLeading | src/getLocalIdent.js:290 | a leading `[local]` in any case becomes a `$`-free local name, and the rest is kept |
| LocalIdent.SubstituteIndexedNoBracket | src/getLocalIdent.js:296-298 | an identifier without `[` goes through every `[N]` turn unchanged |
| LocalIdent.IndexPatternsDiffer | src/getLocalIdent.js:297 | the patterns of two different indices differ, under case folding, at a position both have |
| LocalIdent.IndexPatternOnlyAt | src/getLocalIdent.js:296-298 | in an identifier whose only `[` opens `[i]`, the pattern of no other index occurs |
| LocalIdent.IndexedTurnAt | src/getLocalIdent.js:297 | turn `i` replaces the only `[i]` by a `$`-free group text and keeps the text around it |
| LocalIdent.SubstituteIndexedBefore | src/getLocalIdent.js:296-298 | the turns before `i` leave an identifier whose only `[` opens `[i]` unchanged |
| LocalIdent.SubstituteIndexedAfter | src/getLocalIdent.js:296-298 | from turn `i` on, that identifier is `x`, the text of group `i`, then `y` |
| LocalIdent.SubstituteGroupsSingle | src/getLocalIdent.js:296-298 | all the turns turn `x[i]y` into `x`, the text of group `i` (or `undefined` when the group did not take part), then `y` |
| LocalIdent.HashUpdatesSalt | src/getLocalIdent.js:262-266 | the salt is hashed exactly when it is not empty, and the content is always the last update |
| LocalIdent.LocalIdentIsSafe | src/getLocalIdent.js:203-303 | whatever the foreign calls return, the identifier decodes to its normalised form, which has no reserved character, control character or dot and no leading digit |
| LocalIdent.EmptyRegExpIgnoresMatch | src/getLocalIdent.js:292-300 | with an empty `regExp`, the identifier does not depend on how the resource path would match |
| LocalIdent.EmptySaltHashesContentOnly | src/getLocalIdent.js:262-266 | with an empty salt, any hash that agrees on the single content update gives the same identifier |
| LocalIdent.LocalIdentOptions.constructor | src/requireCssModule.js:136-156 | the options object holds the given settings and no content yet |
| LocalIdent.SetContent | src/getLocalIdent.js:209-229 | `options.content` becomes the content string and the other options are untouched |
| LocalIdent.PlaceHashes | src/getLocalIdent.js:231-257 | the reassignments of the hash settings and of the template compute `ApplyPlaceholders` |
| LocalIdent.HashContent | src/getLocalIdent.js:259-272 | the updates fed to the hash and the post-processing compute `IdentHash` |
| LocalIdent.SubstituteGroups | src/getLocalIdent.js:296-298 | the `forEach` loop computes every `[i]` turn in order, so on `x[i]y` it returns what `SubstituteGroupsSingle` states |
| LocalIdent.GetLocalIdent | src/getLocalIdent.js:203-303 | `options.content` is set, the other options are unchanged, and the result is `LocalIdentOf` the arguments |
| RequireCssModule.Extension | src/requireCssModule.js:52 | the extension is a suffix of the path: from the last `.` (with no other `.` in it), or the last character when there is no `.` |
| RequireCssModule.GetFiletypeOptions | src/requireCssModule.js:51-56 | `null` exactly when `filetypes` is absent; the entry for the extension when there is one; `undefined` otherwise |
| RequireCssModule.FiletypeOfSuffix | src/requireCssModule.js:52-53 | `<stem>.<suffix>` gets the entry for `.<suffix>`, whatever dots the stem holds |
| RequireCssModule.FiletypeWithoutDot | src/requireCssModule.js:52 | a path without `.` is looked up by its last character |
| RequireCssModule.ContextOf | src/requireCssModule.js:137 | the context is the working directory exactly when none, or an empty one, is configured (or it is configured as that directory), and a configured non-empty context is the context |
| RequireCssModule.DefaultIdentOptions | src/requireCssModule.js:136-156 | the options object of the default path carries the chosen context |
| RequireCssModule.DefaultScopedName | src/requireCssModule.js:126-158 | unescaping the class, building the options object and calling `getLocalIdent` gives what the chosen closure returns |
| RequireCssModule.CallbackUsedAsIs | src/requireCssModule.js:123-124 | a function option is used unchanged: no unescaping before, no escaping after |
| RequireCssModule.DefaultCallsGetLocalIdent | src/requireCssModule.js:126-158 | otherwise the name is `getLocalIdent` of `{resourcePath}`, the template or default, `unescape(clazz)`, and the context with `md4`, `hex`, 20, no salt, no `regExp` |
| RequireCssModule.DefaultNameIsSafe | src/requireCssModule.js:126-158 | on the default path the name decodes to one with no reserved character, control character or dot and no leading digit |
| RequireCssModule.ScopedNameIgnoresRegExpMatch | src/requireCssModule.js:155 | the scoped name never depends on how the resource path would be matched |
| RequireCssModule.ScopedNameHashesContentOnly | src/requireCssModule.js:151 | the scoped name only depends on the hash of the single content update |

## Left out

- JavaScript strings are sequences of UTF-16 code units, but the model's strings are sequences of code points (src/getLocalIdent.js:67-73, 146). An astral character is one character here, where the source sees two surrogates.
- Case folding under the `i` flag is ASCII only, which is what a JavaScript regular expression without the `u` flag does for the patterns used.
- The JavaScript regular expressions are modelled as deterministic scanners. Backtracking is collapsed where only one reading can succeed, and this is argued in the comments.
- `createHash` (src/getLocalIdent.js:259-266) is a foreign library. It is `Host.digest`, which takes the algorithm, the sequence of `update`s and the encoding. The digest's internals are not modelled.
- webpack's `getPath`, obtained through the mock compiler (src/getLocalIdent.js:24-48, 290), is a foreign library call and is `Host.getPath`.
- Node's `path.relative`, `path.extname`, `path.basename` and `path.sep` are fields of `Host`, so the model has no file system or platform.
- `resourcePath.match(options.regExp)` (src/getLocalIdent.js:293) is `Host.matchRegExp`.
- The `regExp` option is represented by its source text, where empty means falsy. A `RegExp` object, which is always truthy, is not told apart from a non-empty string.
- `optionsDefaults.generateScopedName` comes from src/schemas/optionsDefaults, which is not part of this model. The default template is a parameter.
- `process.cwd()` is a parameter.
- Of the loader context's `_module`, only `matchResource` is kept. An absent or empty one is falsy.
- `hashDigestLength` is a natural number. A negative or fractional option value is not modelled. A length group's digits are read as the number `slice` converts them to.
- `filetypes[extension]` is a `map` lookup, so keys inherited from `Object.prototype` are not modelled.
- `getSyntax`, `getExtraPlugins`, `getTokens`, `fetch` and the postcss runners (src/requireCssModule.js:58-115, 161-175) are left out. They are file reading, dynamic `require` and plugin plumbing.
- The Babel glue in src/index.js, src/handleSpreadClassName.js, src/conditionalClassMerge.js, utils.js and src/types.js is left out. It builds AST nodes and wraps libraries that are not part of this model.
- HashPlaceholder.ParseRender: without an algorithm it covers a placeholder whose digest, when there is one, does not begin with `hash`, `contenthash` or `fullhash` in some case. `[hash:hash]` is read with `hash` as the algorithm, so the round trip does not hold for such a digest. The same holds for ApplyRenderedPlaceholder and ApplyPlaceholderAfter.
- LocalIdent.SubstituteGroupsSingle: it states the result for an identifier with a single `[N]` and a group text without `[`. With several indices, or a group text that itself holds `[N]`, the result is only given by `SubstituteIndexed`.
- HashPlaceholder.ParseRender: the hash names it reads back are the three names in any ASCII case, the forms group 2 accepts.
- LocalIdent.GetLocalIdent: its straight-line steps are split into the methods `SetContent`, `PlaceHashes`, `HashContent` and `SubstituteGroups`. Their statements are those of the source, in its order.
- CssUnescape.Unescape: its loop body at a backslash is the method `UnescapeBackslash`.
- LocalIdent.SubstituteLocal and LocalIdent.SubstituteIndexed follow `replace` with a replacement string, so `$$`, `$&`, `` $` `` and `$'` in a local name or a group's text are expanded. The proved lemmas about them assume a `$`-free text where it matters.
