# faleproxy URL normaliser, modelled in Dafny

faleproxy fetches a web page and rewrites "Yale" to "Fale" in its visible
text. Before fetching, it normalises the URL the user typed with
`ensureUrlHasProtocol`. If the string already starts with `http://` or
`https://`, it is returned unchanged. The scheme letters may be in any case,
and that case is kept. Otherwise `https://` is put in front of it. The
repository ships this function as a copy inside its unit tests
(`tests/url-protocol.test.js`). This project models that function and proves
what its tests and its design promise.

The function decides with the regular expression `/^https?:\/\//i`. The
model keeps that regular expression as data, not as a hand-written prefix
check:

- `ascii_case.dfy` (module `AsciiCase`) holds the character folding a
  JavaScript RegExp applies under the `i` flag without the `u` flag.
  `Canonicalize` folds ASCII letters to upper case. It also holds plain
  ASCII lower-casing (`LowerChar`, `LowerAscii`).
- `anchored_regex.dfy` (module `AnchoredRegex`) holds patterns of literal
  characters, some under the greedy `?`. `MatchLength` is a backtracking
  matcher anchored at index 0: `?` first takes a character, and if the rest
  then fails it tries again without. `Accepts` is the pattern's language,
  stated independently. The matcher is proved sound and complete against
  it.
- `url_protocol.dfy` (module `UrlProtocol`) holds `SchemePattern`, which is
  `/^https?:\/\//i`, and `EnsureUrlHasProtocol`, which branches on the
  matcher exactly as the source does. `HasHttpScheme` is the reference
  definition: the first 7 or 8 characters, ASCII-lowered, equal `http://`
  or `https://`. `SchemePatternExact` proves that the regular expression
  and the reference predicate agree on every string. Every other property
  is stated through `HasHttpScheme`.

## Model

| member | source | states |
|---|---|---|
| `AsciiCase.Canonicalize` | tests/url-protocol.test.js:5 | The `i` flag's folding sends exactly the ASCII letters to upper case. It never produces a lower-case letter. It keeps characters on their side of 128. Lowering the folded form of a lower-case letter gives the letter back. |
| `AsciiCase.SameCanonical` | tests/url-protocol.test.js:5 | Compare `c` with a character `d` that is not upper case. The two are equal under RegExp case folding exactly when `c` lower-cases to `d`. |
| `AnchoredRegex.MatchLength` | tests/url-protocol.test.js:5 | A match found at index 0 is no longer than the input and no longer than the pattern. It is at least as long as the pattern's mandatory atoms. |
| `AnchoredRegex.MatchLengthSound` | tests/url-protocol.test.js:5 | The prefix the matcher reports is in the pattern's language. |
| `AnchoredRegex.MatchLengthComplete` | tests/url-protocol.test.js:5 | If any prefix of the input is in the pattern's language, the matcher succeeds. Backtracking over `?` misses no match. |
| `AnchoredRegex.MatchesLiteralThen` | tests/url-protocol.test.js:5 | A literal followed by more pattern matches exactly when the input starts with the literal, case-insensitively, and the rest of the pattern matches what follows. |
| `UrlProtocol.SchemePatternExact` | tests/url-protocol.test.js:5 | `/^https?:\/\//i` matches a string if and only if its first 7 characters, lowered, are `http://` or its first 8 are `https://`. |
| `UrlProtocol.EnsureUrlHasProtocol` | tests/url-protocol.test.js:3-11 | An input with a recognised scheme is returned unchanged. Any other input is returned as `https://` followed by the input. |
| `UrlProtocol.OutputHasScheme` | tests/url-protocol.test.js:5-10 | Every result starts with a recognised scheme. |
| `UrlProtocol.Idempotent` | tests/url-protocol.test.js:5-10 | Normalising a result again changes nothing. |
| `UrlProtocol.InputIsSuffix` | tests/url-protocol.test.js:6-10 | The input is the tail of the result. What comes before it is either nothing or `https://`, so host, subdomain and path are never altered. |
| `UrlProtocol.LengthGrowth` | tests/url-protocol.test.js:5-10 | The result is as long as the input if and only if the input had a scheme. Otherwise it is 8 characters longer. |
| `UrlProtocol.AnyCasingKept` | tests/url-protocol.test.js:5-6 | A scheme in any letter case that lowers to `http://` or `https://` is recognised. The string comes back with its original casing. |
| `UrlProtocol.DetectionIgnoresCase` | tests/url-protocol.test.js:5 | Two strings that differ only in ASCII letter case are both recognised or both not. Each is kept unchanged exactly when the other is. |
| `UrlProtocol.AnchoredAtStart` | tests/url-protocol.test.js:5-10 | A string whose first character is not `h` or `H` gets `https://` prepended, whatever it contains further on. |
| `UrlProtocol.KeepsHttpUrl` | tests/url-protocol.test.js:14-17 | `http://example.com` is unchanged. |
| `UrlProtocol.KeepsHttpsUrl` | tests/url-protocol.test.js:19-22 | `https://yale.edu` is unchanged. |
| `UrlProtocol.AddsHttpsToHost` | tests/url-protocol.test.js:24-27 | `yale.edu` becomes `https://yale.edu`. |
| `UrlProtocol.AddsHttpsToWwwHost` | tests/url-protocol.test.js:29-32 | `www.yale.edu` becomes `https://www.yale.edu`. |
| `UrlProtocol.AddsHttpsToSubdomain` | tests/url-protocol.test.js:34-37 | `admissions.yale.edu` becomes `https://admissions.yale.edu`. |
| `UrlProtocol.AddsHttpsToPath` | tests/url-protocol.test.js:39-42 | `yale.edu/admissions` becomes `https://yale.edu/admissions`. |
| `UrlProtocol.KeepsUpperCaseScheme` | tests/url-protocol.test.js:44-47 | `HTTPS://yale.edu` is unchanged, upper-case scheme included. |
| `UrlProtocol.AddsHttpsToFtpUrl` | tests/url-protocol.test.js:5-10 | `ftp://yale.edu` is not recognised and becomes `https://ftp://yale.edu`. |
| `UrlProtocol.AddsHttpsBeforeLaterScheme` | tests/url-protocol.test.js:5-10 | `http://` that appears only later in the string is not a scheme. `www.yale.edu/http://` becomes `https://www.yale.edu/http://`. |

## Left out

- The mock Express endpoint `POST /fetch` in `tests/integration.test.js`. It is request/response plumbing (express, supertest). Its success response is a fixed HTML literal, so no text replacement is computed there, and the model invents none.
- That endpoint's 400 branch (missing `url`) and 500 branch (the single sentinel string `not-a-valid-url`). Both are guards tied to the HTTP framework and test scaffolding, not a URL validator.
- HTML parsing with cheerio and HTTP mocking with nock/axios. These are foreign libraries whose behaviour is not visible here. The production `app.js` with the real fetch-and-rewrite handler is not part of this model.
- Non-string arguments to `ensureUrlHasProtocol`. On those, `url.match` throws. The model takes `string` only.
- JavaScript strings are UTF-16 code units, while Dafny's `char` is a Unicode scalar value, so lone surrogates cannot be written. This does not change the result: the pattern is all ASCII, and no non-ASCII unit matches an ASCII pattern character.
- AsciiCase.Canonicalize: does not model the RegExp case mapping of non-ASCII characters (for example `é` to `É`). It leaves them unchanged. Without the `u` flag, a character at or above 128 never folds into the ASCII range, so against this all-ASCII pattern the match outcome is the same.
- The regular-expression engine is modelled only for the constructs `/^https?:\/\//i` uses: the start anchor, literal characters, `?` on one character, and the `i` flag.
