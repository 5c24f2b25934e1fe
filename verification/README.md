# totp-mcp core, modelled in Dafny

A model of the pure logic of the `totp-mcp` server (`index.js`). The server
answers two tool calls: `get_totp_code` returns the one-time code for an
account, and `list_totp_accounts` reports which accounts have a secret.
The model covers four parts:

- **Secrets file loader** (`loadSecrets`, module `Secrets`). The file text is
  cut at `"\n"`. Each line of the shape `^([A-Z_]+)=(.+)$` stores
  key -> trimmed value, and a later line overwrites an earlier one. A file
  that cannot be read gives the empty map.
- **Account registry** (`ACCOUNTS`, module `Accounts`). This is an ordered
  table with the alias `codiedev42` for `google`. Lookup is case-insensitive,
  and the module also builds the per-account configuration listing
  (`listAccounts`).
- **Code request** (`generateCode`, module `Codes`). It has four outcomes, checked
  in order: unknown account, missing or empty secret, library failure,
  and success. Success echoes the account name as the caller spelled it.
- **Tool-call handler** (module `Dispatcher`). It turns the outcomes into the
  exact response texts, and an unknown tool name is answered with text too.

The JavaScript built-ins these parts depend on are defined in module `Text`.
That covers `split` with a one-character separator, `join`, `trim` with the
full ECMAScript whitespace set, `toLowerCase` on ASCII letters, and the
rendering of an integer in a template literal.

Inputs from outside the server become parameters:

- The secrets file is an `Option<string>`: `None` means the read threw.
- The one-time-password library (`authenticator.generate` followed by
  `authenticator.timeRemaining`) is a function parameter
  `derive: string -> Derivation`. For a secret it returns either
  `Derived(code, remaining)` or `Threw(message)`. Nothing is assumed
  about the codes themselves. The library reads the clock, and one
  `derive` stands for the library at one instant, so the model assumes
  the outcome depends only on the secret and that instant.

Behaviour that follows from the source as written and is proved here:

- In a file with CRLF line endings, every line that still ends in `\r` after
  the cut at `"\n"` is skipped, because `.` cannot match `\r`
  (`Secrets.RejectedLines`). Only an unterminated last line can be stored,
  and a CRLF file that ends with a line break stores nothing
  (`Secrets.CrlfFileLastLineOnly`).
- The file is read without stripping a byte order mark. So a first line that
  starts with U+FEFF is skipped the same way.
- A value that is only whitespace is stored as `""`
  (`Secrets.AcceptedLine`). Its account is then reported NOT configured, and a
  code request for it fails with the missing-secret error.

## Model

| member | source | states |
|---|---|---|
| `Text.Split` | index.js:28 | Splitting at `"\n"` gives at least one piece, and no piece holds a newline. Joining the pieces with `"\n"` gives back the file text. |
| `Text.SplitJoin` | index.js:28 | Split undoes join: newline-free pieces are recovered exactly from their join. This is the partner of `Split`. |
| `Text.Trim` | index.js:31 | `trim` returns the infix that starts after the leading whitespace. Only whitespace follows it, and it neither starts nor ends with whitespace. It is empty exactly when the input is all whitespace. |
| `Text.TrimUnique` | index.js:31 | Trim is determined by its result: if `s` is whitespace, then `m`, then whitespace, and `m` has no whitespace at either end, trimming `s` gives `m`. |
| `Text.TrimIdempotent` | index.js:31 | Trimming an already trimmed value changes nothing. |
| `Text.AsciiLowerProperties` | index.js:44 | Lower-casing keeps the length and is idempotent. Every character other than `A`-`Z` is unchanged, and each capital becomes the lower-case letter at the same alphabet position, so no capital is left behind. |
| `Text.AsciiLowerEqualIff` | index.js:44 | Two names lower-case to the same text exactly when they are equal character by character up to ASCII letter case. |
| `Text.DigitsRoundTrip` | index.js:125 | Reading back the decimal digits rendered for `remaining` gives the same number. |
| `Text.DecimalStringInjective` | index.js:125 | Different `remaining` values never render as the same text. |
| `Secrets.ParseLineMatches` | index.js:29-31 | A line gives a binding exactly when `^([A-Z_]+)=(.+)$` matches it. The key is then the first capture group and the value is the trimmed second group. |
| `Secrets.MatchPosition` | index.js:29 | The regex can only place its `=` right after the maximal run of `[A-Z_]` characters. Backtracking can never find another match. |
| `Secrets.MatchAtKeyLength` | index.js:29-30 | The parser finds a binding exactly when the match at the end of the key characters succeeds. |
| `Secrets.MatchAtFirstEquals` | index.js:29 | A match uses the first `=` of the line and no other. The stored key is exactly the text before the first `=`. |
| `Secrets.ParsedBindingWellFormed` | index.js:29-31 | Every stored key is a non-empty run of `[A-Z_]`. Every stored value is trimmed and holds no line terminator. |
| `Secrets.CollectWellFormed` | index.js:27-33 | Storing well-formed bindings one after another yields a well-formed map. |
| `Secrets.ParseLinesWellFormed` | index.js:28-33 | The map built from any lines is well-formed. |
| `Secrets.StoredIffSomeBinds` | index.js:28-33 | A key is stored exactly when at least one parsed line binds it. |
| `Secrets.LastBindingWins` | index.js:28-33 | If line `i` binds a key and no later line does, that key holds line `i`'s value, so later duplicates win. |
| `Secrets.StoredValueIsLast` | index.js:28-33 | Every stored value is the value of the last line that binds its key. |
| `Secrets.CollectAppend` | index.js:28-33 | Parsing `a` then `b` gives the map of `a` overridden by the map of `b`. |
| `Secrets.ParseAllAppend` | index.js:28-29 | Lines are parsed independently of each other. |
| `Secrets.SkippedLineIrrelevant` | index.js:28-33 | Inserting a line that does not match anywhere in the file leaves the loaded secrets unchanged. |
| `Secrets.RejectedLines` | index.js:29-30 | These lines are skipped: empty lines, lines starting with a non-key character (lower-case or indented keys, a byte order mark), lines without `=`, `KEY=` with nothing after the only `=`, and lines ending in `\r`. |
| `Secrets.AcceptedLine` | index.js:29-31 | `KEY=raw` is stored under `KEY` with `trim(raw)` whenever `raw` is non-empty and has no line terminator, even if `raw` contains `=`. A whitespace-only `raw` is stored as `""`. |
| `Secrets.LoadSecrets` | index.js:24-39 | A failed read yields the empty map. Whatever is loaded is well-formed. |
| `Secrets.ParsedKeys` | index.js:28-33 | A key is defined by a list of lines exactly when one of those lines binds it. |
| `Secrets.LoadedKeys` | index.js:24-34 | A key is loaded from readable file text exactly when one of its `"\n"`-separated lines binds it. |
| `Secrets.LoadedValueIsLast` | index.js:24-34 | The value loaded for a key comes from the last line of the file that binds it. |
| `Secrets.CrlfFileLastLineOnly` | index.js:28-33 | When every line but the last still ends in `\r` after the cut at `"\n"`, the loaded secrets are those of the last line alone. If that last line is empty or also ends in `\r`, nothing is stored. |
| `Accounts.Lookup` | index.js:44 | Lookup fails exactly when no row has the name. Otherwise it returns the key of the first row with that name. |
| `Accounts.ResolveRegistry` | index.js:18-21 | Exactly `google` and `codiedev42` resolve, in any letter case, and both resolve to `GOOGLE_TOTP_SECRET`. Resolving a name and its lower-cased form agree. |
| `Accounts.AvailableNames` | index.js:47 | The available list is the registered names joined by `", "` in definition order: `google, codiedev42`. |
| `Accounts.Statuses` | index.js:69-75 | There is one entry per table row, in order. An entry is configured exactly when its key has a non-empty secret, and otherwise it names that key as missing. |
| `Accounts.NothingConfiguredWithoutSecrets` | index.js:65-77 | With an empty secret map, both accounts are listed NOT configured, each naming `GOOGLE_TOTP_SECRET`. |
| `Accounts.AliasesReportedAlike` | index.js:69-75 | An alias and the account it aliases always have the same configured status. |
| `Codes.GenerateCode` | index.js:42-62 | A code is produced exactly when the account resolves, its secret is non-empty and the library succeeds. The result then carries the library's code and remaining time and the caller's own spelling of the account. |
| `Codes.FailureCause` | index.js:46-61 | A request fails exactly when some cause applies, and its message names the first cause that applies: unknown account, then missing secret, then library failure. |
| `Codes.UnknownAccountFirst` | index.js:46-48 | An unknown account gives `Unknown account: {account}. Available: google, codiedev42`, whatever the secrets and the library. |
| `Codes.LibraryFailureMessage` | index.js:55-61 | When the account resolves, its secret is present and the library throws with message `m`, the result is `Failed to generate code: m`, carrying the library's own message. |
| `Codes.LibraryNotConsultedOnError` | index.js:46-53 | When the account is unknown or its secret is missing, the outcome does not depend on the library at all. |
| `Codes.MissingSecretMessage` | index.js:50-53 | A registered account without a non-empty secret gives `No secret found for GOOGLE_TOTP_SECRET in secrets file`. |
| `Codes.CaseInsensitiveCodes` | index.js:44-58 | Names that differ only in ASCII letter case (an independent character-by-character definition) get the same code at the same instant, and each result echoes its own spelling. |
| `Codes.ListingAgreesWithCodes` | index.js:69-74 | An account is listed configured exactly when a code request for it does not fail with the missing-secret error. |
| `Dispatcher.FormatCodeResult` | index.js:119-127 | A code response starts with `Error: ` exactly when the request failed, and the failure message follows the prefix verbatim. |
| `Dispatcher.StatusLineSingle` | index.js:132-136 | A listing line holds no newline when the account and key names hold none. |
| `Dispatcher.ListingLines` | index.js:132-140 | Cutting a listing at its newlines gives the header and then one line per status. With no statuses a dangling empty line remains, because `[].join` is `""`. |
| `Dispatcher.CodeResponseLines` | index.js:125 | A success response is exactly those two lines when the account and code hold no newline. |
| `Dispatcher.CallTool` | index.js:114-146 | For `get_totp_code` the text starts with `Error: ` exactly when the request failed. Any tool name other than the two known ones is answered `Unknown tool: {name}`. |
| `Dispatcher.UnknownToolIsText` | index.js:145 | An unknown tool gets `Unknown tool: {name}` and never an `Error: ` response. |
| `Dispatcher.RegistryListingLines` | index.js:130-142 | The listing of the registry is the header followed by one line per registered account, in definition order. |
| `Dispatcher.ListToolLines` | index.js:130-142 | The `list_totp_accounts` response has exactly 1 + (number of accounts) lines: the header and then each account's line in order. |
| `Dispatcher.UnknownAccountResponse` | index.js:117-120 | An unknown account gets `Error: Unknown account: {account}. Available: google, codiedev42`. |
| `Dispatcher.LibraryFailureResponse` | index.js:117-120 | A library failure with message `m` is answered `Error: Failed to generate code: m`. |
| `Dispatcher.EmptyStoreListing` | index.js:130-140 | With no secrets, the listing text is the header and then both accounts as `NOT configured (missing GOOGLE_TOTP_SECRET)`. |
| `Dispatcher.UnreadableFileListing` | index.js:130-142 | When the secrets file cannot be read, the listing reports every account NOT configured, and this is not an error response. |
| `Dispatcher.UnreadableFileCode` | index.js:117-120 | When the secrets file cannot be read, a registered account gets the missing-secret error and no file error. |

## Left out

- The MCP `Server`, the stdio transport, request-handler registration, the tool-schema listing and `main` (index.js:81-112, 149-155) are left out. They are protocol plumbing over an SDK that is not part of this model.
- `fs.readFileSync`, the home-directory path of the secrets file and the `console.error` diagnostics (index.js:15, 26, 36, 152) are left out. The file is the parameter `Option<string>`, where `None` means the read failed.
- The TOTP derivation itself (`authenticator.generate`, `authenticator.timeRemaining`, index.js:56-57) is left out. The `otplib` library is not part of this model, so it is the parameter `derive`, and no property of its codes (six digits, a remaining time between 1 and 30) is assumed or proved.
- The clock is folded into `derive`. In the source, `authenticator.generate` and `authenticator.timeRemaining` (index.js:56-57) each read the current time, so two requests at different times get different codes. Here one `derive` stands for one instant: its two clock reads become a single result, and a tick between those two reads is not modelled. `Codes.CaseInsensitiveCodes` relates two requests under one `derive`, so it holds for requests made at the same instant.
- `Accounts.Resolve`: `toLowerCase` is modelled on ASCII letters only. For the two registered names this cannot change which accounts resolve. The only non-ASCII character whose lower case is a single ASCII letter is the Kelvin sign, which lower-cases to `k`, and neither name contains `k`.
- `Accounts.Lookup`: `ACCOUNTS` is a finite ordered table. In JavaScript, the names `constructor` and `__proto__` (in any letter case, since the name is lower-cased first) also reach the object prototype. That yields a truthy non-string "key name" and a missing-secret error instead of an unknown-account error. This prototype-chain behaviour is not modelled.
- `Dispatcher.CallTool`: the call's `account` argument is a string. In the source, a missing or non-string argument throws inside the handler, and that exception surfaces as a protocol-level failure, which is not modelled.
- `Codes.GenerateCode`: a thrown value is taken to carry a string `message`. Throwing a non-`Error` value, which would render `undefined`, is not modelled.
- `Text.DecimalString`: this renders integers only. The JavaScript rendering of a non-integer, `NaN`, or a magnitude of at least 10^21 (exponent notation) is not modelled for `remaining`.
- JavaScript strings are UTF-16 code units, and the model uses Unicode scalar values. The regular expression has no `u` flag, so `.` matches each half of a surrogate pair, and every proved statement holds equally over code units.
