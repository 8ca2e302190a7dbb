# AgentFi decision cores: a verified model

A Dafny model of the parts of AgentFi that decide who may log in, what may leave the
process in an error, and which address, contract or endpoint is trusted, with proofs about
whole runs, all texts and all object graphs.

- **Admin login limiter** (`LoginLimit`, `LoginLimitRuns`, `LoginAnswers`, `LoginLimiter`). One attempt is one
  step of a pure function on the entry of its key; the class keeps the source's mutable table
  of mutable entries and is proved to take exactly that step. Over runs: keys do not influence
  each other, failed guesses are bounded in every interval, a lock holds and ends exactly, and
  every answer is decided by the locks and logins before it.
- **Error sanitizer** (`Strings`, `Redaction`, `RedactionOrder`, `Urls`, `UrlAnswers`, `Passes`,
  `UrlRule`, `SanitizeContext`, `SanitizeText`, `SanitizePasses`, `SanitizeLimits`, `SanitizeValue`,
  `ValuePaths`, `JsonText`, `JsonReader`, `ErrorPayload`).
  Exact-secret redaction by split and join, then pattern passes that replace whatever they match.
  The main result is the exact condition under which a secret can never come back, carried
  through every later pass, through object graphs with cycles, and up to the printed tool-error
  text. Beside it stands what each part does: every pass and their order, every answer to a URL,
  every place of a value, and the printed text, which reads back as what was printed. A regular expression is any function that cuts a text into kept stretches and hits; the
  URL parser is any function that prints the origin of an http, https, ws or wss URL as such a
  scheme, a domain of the characters parsing leaves there or an IPv6 address, and a port.
- **Bytecode identity** (`ContractIdentity`). In-place masking of byte ranges and the decider on
  top of it.
- **Address spelling, RPC fallback, legacy contracts** (`Addresses`, `Chains`, `Contracts`).

`dafny verify dfyconfig.toml` checks the project.

## Where the code and its promises differ

Each of these is a lemma with the exact condition.

- The documentation gives `ADMIN_AUTH_MAX_ATTEMPTS` as the login attempts before lockout
  (`docs/operations/production-deploy.md:27`). With a limit of one the first failure answers
  "none remaining" and does not lock (`FirstFailureIsHonestIff`, `ServedLockIsFreshIff`). And
  the window is fixed, not sliding: 2·limit − 3 failures within a millisecond can pass without a
  lock, 2·limit − 2 within one window length cannot (`UnlockedBound`, `UnlockedBoundIsTight`).
- Two username and ip pairs can share a limiter key, exactly when an ip carries a `|` in front of
  the other ip (`SharedKeyIff`, `TwoPairsShareKey`).
- A context's secrets "must never appear in a result" (`packages/mcp-server/src/errors.ts:21`).
  - The secret loop guarantees it exactly for secrets that touch `[redacted]` at no overlap
    (`SecretNeverSurvivesIff`); a secret equal to `redacted` survives (`MarkerWordSurvives`).
  - The URL rule prints an origin anew, and URL parsing does not return the host as it was
    written: it lower-cases, percent-decodes and completes. An RPC URL that ends in a slash, a
    hex value met in capitals and a value of digits met percent-encoded
    (`https://12%3345678.io?k`) are printed although the input does not hold them
    (`TrailingSlashSecretReturns`, `UpperCaseHostReturns`, `EncodedHostReturns`).
  - The rule brings back no secret exactly for those that touch none of its three answers
    (`UrlPassIsSafeIff`). On the value: it cannot lie inside an origin and the slash after it, and
    no end of it can start one (`OriginSafeIff`); a capital letter, an `@` or the like with no `h`
    and no `w` after it is enough (`ForeignCharIsSafe`), as in `postgres://u:p@db`. For values
    without brackets, white space and ellipsis this check decides the whole text pipeline, over
    all patterns and all such parsers (`BareSecretNeverShownIff`).
  - In structured details a secret shows exactly through kept keys, numbers and literals,
    BigInt digits and truncation notes, none of which is sanitized (`SecretShowsIff`,
    `SecretKeyIsKept`, `NumericPasswordShows`).
  - What leaves the process is the payload printed as JSON, and escapes are inserted after
    sanitizing: a secret with a backslash, and one that starts like the end of an escape, can
    appear in the print of a text without it (`BackslashSecretReturns`). The exact condition is
    `EscapesNeverIntroduceIff`; for secrets without special characters it is read off the first
    character, or the first five after a `u` (`EscapesAreSafeIff`, `FirstCharacterDecides`).
- An override `RPC_URL_<chainId>` "becomes the primary" exactly when its text holds neither
  "null" nor "undefined"; otherwise it is dropped without an error (`OverrideIsPrimaryIff`,
  `NullInOverrideIsDropped`).
- An all-uppercase address body is said to be refused; it is accepted exactly when it is its own
  checksum form or has no letters (`UpperBodyAcceptedIff`), which an all-caps example of
  EIP-55 and every body of digits show (`UpperBodyAccepted`, `LetterlessAccepted`).

## Model

| member | source | states |
|---|---|---|
| LoginLimit.SharedKeyIff | packages/admin/src/lib/login-rate-limit.ts:60-64 | two attempts share a key iff identity and ip agree, or one ip extends the other across a bar that belongs to the other identity; for every case mapping |
| LoginLimit.KeyIsInjective | packages/admin/src/lib/login-rate-limit.ts:60-64 | without a bar in the ips the key determines identity and ip, whatever the username holds |
| LoginLimit.TwoPairsShareKey | packages/admin/src/lib/login-rate-limit.ts:60-64 | two different names at two different ips are counted together |
| LoginLimit.KeysAreIndependent | packages/admin/src/lib/login-rate-limit.ts:66-127 | in any interleaving the entry and every answer of a key are those of a limiter that saw only that key's attempts |
| LoginLimitRuns.ReachableEntry | packages/admin/src/lib/login-rate-limit.ts:73-121 | in every reachable table the count stays below what a window admits, and locked means count zero with a lock a full lockout past the window start |
| LoginLimitRuns.RateBound | packages/admin/src/lib/login-rate-limit.ts:87-121 | from every reachable state, failed comparisons in an interval of length T number at most max(2, limit) times (T / min(window + 1, lockout) + 2 + successes) |
| LoginLimitRuns.KeyRateBound | packages/admin/src/lib/auth.ts:122-149 | the same bound for one key in a run of attempts on all keys from an empty table |
| LoginLimitRuns.LockSafety | packages/admin/src/lib/login-rate-limit.ts:73-121 | after a locking failure an attempt before the end is refused with exactly the time left, right password or not; from the end on it is judged in a fresh window |
| LoginLimitRuns.NoComparisonDuringLock | packages/admin/src/lib/auth.ts:122-137 | with a nondecreasing clock no attempt checked during the lock reaches the password comparison |
| LoginLimitRuns.LockHolds | packages/admin/src/lib/login-rate-limit.ts:73-75 | refused attempts neither shorten nor extend the lock |
| LoginLimitRuns.ServedLockIsFreshIff | packages/admin/src/lib/login-rate-limit.ts:77-121 | corollary of the definitions: after a served lockout a key is judged like a new one iff the limit is at least two, the password is right, or the window has already passed |
| LoginLimitRuns.CountdownIsExact | packages/admin/src/lib/login-rate-limit.ts:93-120 | after "not locked, r remaining" the next r failures of the window count down and exactly the r-th locks |
| LoginLimitRuns.FirstFailureIsHonestIff | packages/admin/src/lib/login-rate-limit.ts:93-104 | corollary of the definitions: "none remaining" coincides with "locked" on a first failure iff the limit is at least two |
| LoginLimitRuns.UnlockedBound | packages/admin/src/lib/login-rate-limit.ts:93-114 | failures within one window length that never lock number at most 2·limit − 3 |
| LoginLimitRuns.UnlockedBoundIsTight | packages/admin/src/lib/login-rate-limit.ts:93-114 | that many failures within one millisecond can pass without a lock |
| LoginAnswers.AnswerIsDecided | packages/admin/src/lib/auth.ts:122-149 | after every run from an empty table an attempt is turned away iff an earlier failure locked its key until after the check; otherwise the right credentials are let in and wrong ones charged |
| LoginAnswers.LoginClearsKey | packages/admin/src/lib/login-rate-limit.ts:123-127 | after a login the key is out of the table and every later answer on it is that of a key never seen |
| LoginAnswers.OneGuessLeft | packages/admin/src/lib/auth.ts:122-149 | after any number of wrong guesses below the limit the right password is let in |
| LoginAnswers.ExpiredWindowRestarts | packages/admin/src/lib/login-rate-limit.ts:93-104 | a failure after the window of a first failure is answered like a first one |
| LoginAnswers.SpellingsShareKeyIff | packages/admin/src/lib/login-rate-limit.ts:60-64 | from one ip, two names share a key iff they agree after trimming and case mapping |
| LoginAnswers.BlankNamesShareKey | packages/admin/src/lib/login-rate-limit.ts:60-64 | a blank name is counted as one unknown user per ip |
| LoginLimiter.Limiter.IsLoginBlocked | packages/admin/src/lib/login-rate-limit.ts:66-85 | the in-place check changes only the key's entry, as the pure check says, and answers the time left |
| LoginLimiter.Limiter.RegisterLoginFailure | packages/admin/src/lib/login-rate-limit.ts:87-121 | a failure changes only the key's entry and answers as the pure step says |
| LoginLimiter.Limiter.ClearLoginFailures | packages/admin/src/lib/login-rate-limit.ts:123-127 | a success removes exactly the key's entry |
| LoginLimiter.Limiter.Judge | packages/admin/src/lib/auth.ts:122-163 | check, compare, register or clear on the mutable table is one step of the pure limiter: blocked iff the entry is locked, otherwise let in, with the entry gone, iff the credentials match, and charged if not |
| LoginLimiter.Limiter.Authorize | packages/admin/src/lib/auth.ts:97-163 | an empty password, or in production a placeholder, answers without touching the table; otherwise the attempt on the trimmed username is judged as above |
| Strings.SplitIsUnique | packages/mcp-server/src/errors.ts:225-227 | a list of pieces is the split iff no piece holds or straddles the separator and joining restores the text |
| Strings.TrimIff | packages/mcp-server/src/errors.ts:257 | trimming takes white space from both ends, all of it, and nothing else |
| Strings.DecimalIff | packages/mcp-server/src/errors.ts:287 | the decimal text of a number is the one without a leading zero that reads back as it |
| Redaction.SecretNeverSurvivesIff | packages/mcp-server/src/errors.ts:225-227 | a secret is out of every text, among any other secrets in the order the environment scan builds, iff it agrees with no overlap of the marker |
| Redaction.RedactAllKeepsOut | packages/mcp-server/src/errors.ts:225-227 | in a list of any order, a secret that does not touch the marker is out of the final text |
| Redaction.RedactAllTwice | packages/mcp-server/src/errors.ts:225-227 | running the secret loop twice equals running it once, for secrets that do not touch the marker |
| Redaction.MarkerWordSurvives | packages/mcp-server/src/errors.ts:225-227 | a secret equal to the marker's word survives its pass, and a second run changes the text again |
| Redaction.BracketFreeTouchesIff | packages/mcp-server/src/errors.ts:226-234 | for a secret without brackets, touching a bracketed marker means lying in its words |
| SanitizeContext.FromEnv | packages/mcp-server/src/errors.ts:34-61 | the secrets are exactly the qualifying values, each once, longest first; a parsed API URL gives the internal origin and host |
| SanitizeContext.CollectByName | packages/mcp-server/src/errors.ts:35-39 | the loop collects exactly the values of at least eight characters under sensitive names |
| SanitizeContext.SecretIff | packages/mcp-server/src/errors.ts:27-55 | a value is secret iff it has eight characters and a telling name, or four and is the API key or an API URL that does not parse |
| RedactionOrder.EarlierNeverInside | packages/mcp-server/src/errors.ts:58 | in longest-first order no earlier secret is a part of a later one |
| RedactionOrder.LongestFirstLeavesNoFragment | packages/mcp-server/src/errors.ts:58-227 | in any text, a secret that no secret up to it in the list straddles becomes exactly one marker, and the text on its two sides is redacted as if it stood alone |
| RedactionOrder.SweepIsJoin | packages/mcp-server/src/errors.ts:226 | splitting and joining equals one sweep from left to right, for any marker |
| RedactionOrder.ShortestFirstLeavesFragment | packages/mcp-server/src/errors.ts:58-227 | in the opposite order the rest of a longer secret stays in the text |
| Urls.SplitTrailing | packages/mcp-server/src/errors.ts:152-171 | the loop returns the kept part and the cut part, together the input, the cut part only punctuation and closers |
| Urls.KeptIsLongest | packages/mcp-server/src/errors.ts:145-171 | the kept part is the longest prefix that does not end in punctuation or in a closer outnumbering its openers |
| Urls.KeptIdempotent | packages/mcp-server/src/errors.ts:152-171 | nothing more is cut from the kept part |
| Urls.CloserIsCutIff | packages/mcp-server/src/errors.ts:159-166 | a closing bracket after a match is cut iff no bracket of its type is pending |
| Urls.TailIsCut | packages/mcp-server/src/errors.ts:147-171 | sentence punctuation and closers with nothing pending never change what is kept |
| UrlAnswers.KeptIsLongestTight | packages/mcp-server/src/errors.ts:145-171 | told by the characters: the kept part is the longest prefix that does not end in one of .,;:!? or in a round, square or curly bracket that closes more than was opened |
| UrlAnswers.AnswerByFields | packages/mcp-server/src/errors.ts:173-194 | the answer to every match, from the fields of the parsed URL: hidden with its origin iff user name, password, query or fragment is non-empty or the path holds, between slashes or its ends, at least twenty letters, digits, _ or - with a letter and a digit among them |
| UrlAnswers.PrivateHostIff | packages/mcp-server/src/errors.ts:127-138 | a host without outer brackets counts as internal iff, in lower case, it is a single label, ends in a reserved label, is a quad of a private block, 0.0.0.0 or ::1 |
| UrlAnswers.BracketsAreDropped | packages/mcp-server/src/errors.ts:128 | an IPv6 host is tested without its brackets |
| Urls.EchoedIffShown | packages/mcp-server/src/errors.ts:173-194 | a match is echoed iff it may be shown, up to a kept part that is itself a hidden form; every other answer is one of the three hidden forms and the trailing text |
| Urls.HiddenUrlsRevealOnlyResidue | packages/mcp-server/src/errors.ts:187-192 | of two hidden URLs that agree on kind, origin and trailing text the answers are equal, so user info, path, query and fragment cannot reach the output |
| Urls.PrivateQuadIff | packages/mcp-server/src/errors.ts:127-138 | for every canonical dotted quad the text test agrees with membership in 10/8, 172.16/12, 192.168/16, 127/8, 169.254/16 or being 0.0.0.0 |
| Urls.QuadUrlIsInternalIff | packages/mcp-server/src/errors.ts:181-193 | a URL on a dotted quad whose origin is not listed is answered as internal iff the address is private, whatever else it carries; otherwise like any other URL |
| SanitizePasses.Sanitize | packages/mcp-server/src/errors.ts:215-260 | the statements compute the composition of the passes, at most 4013 characters long; and when one pass decides, the result is what that pass alone makes of the input, finished |
| SanitizePasses.DecidingPassIsApplied | packages/mcp-server/src/errors.ts:215-260 | each of the sixteen passes, in order and in both network modes: if the passes before it find nothing in the input and those after it nothing in its result, the output is the input with each hit replaced by that pass's own text |
| SanitizePasses.OneHitIsReplaced | packages/mcp-server/src/errors.ts:229-257 | for one hit: the stretches around it with the pass's own text between them |
| SanitizePasses.NothingFoundNothingReplaced | packages/mcp-server/src/errors.ts:215-260 | a text in which nothing that runs in the mode finds anything is only collapsed, trimmed and capped |
| SanitizePasses.CollapseBetween | packages/mcp-server/src/errors.ts:257 | every maximal run of newlines is cut to at most two and the text between runs stays |
| Passes.RewriteKeepsOut | packages/mcp-server/src/errors.ts:229-257 | a pass whose answers are safe brings no absent secret back, whatever it matched |
| Passes.PassIsSafeIff | packages/mcp-server/src/errors.ts:229-235 | a pass with a given marker never introduces a secret, whatever its pattern matches, iff the secret agrees with no overlap of that marker |
| UrlRule.UrlPassIsSafeIff | packages/mcp-server/src/errors.ts:173-236 | the URL rule never introduces a secret, for every URL pattern, every parser that prints origins as scheme, host and port and both network modes, iff the secret touches none of its three answers or is a part of "://" |
| UrlRule.OriginSafeIff | packages/mcp-server/src/errors.ts:181-191 | a secret without brackets touches no such origin with the inserted text iff neither can it lie inside an origin and its slash nor an end of it start one |
| UrlRule.ForeignCharIsSafe | packages/mcp-server/src/errors.ts:181-191 | a secret with a character that no origin has, and neither an h nor a w after it, passes that check |
| UrlRule.ConnectionStringIsSafe | packages/mcp-server/src/errors.ts:27-37 | a lower-case database connection string with a password passes it |
| SanitizeText.SecretsNeverInOutput | packages/mcp-server/src/errors.ts:215-260 | no listed secret that touches no inserted text, and that no reprinted origin introduces, occurs in the output, for all patterns, all inputs and both network modes |
| SanitizeText.PlainIsUntouched | packages/mcp-server/src/errors.ts:226-258 | a check an operator can make on a value, free of brackets, white space and the markers' words, is enough for it to touch no fixed text |
| SanitizeText.OriginSafeIsQuiet | packages/mcp-server/src/errors.ts:181-258 | a bare secret that passes the origin check touches no inserted text and is introduced by no reprinted origin |
| SanitizeLimits.TrailingSlashSecretReturns | packages/mcp-server/src/errors.ts:190-192 | a secret URL ending in a slash is printed by the URL rule although the input does not hold it, in both network modes |
| SanitizeLimits.UpperCaseHostReturns | packages/mcp-server/src/errors.ts:181-192 | a lower-case hex secret met in upper case as a host is printed in lower case, in both network modes |
| SanitizeLimits.EncodedHostReturns | packages/mcp-server/src/errors.ts:181-192 | a secret of digits met with one digit percent-encoded in a host is printed decoded, in both network modes |
| SanitizeLimits.BareSecretNeverShownIff | packages/mcp-server/src/errors.ts:215-259 | a secret without brackets, white space and ellipsis that fits an output line is in no output, for all patterns and all parsers that print origins as scheme, host and port, iff it passes the origin check or is a part of "://" |
| SanitizeValue.SanitizeIsUnfolded | packages/mcp-server/src/errors.ts:263-302 | over every graph, cyclic ones included, the recursion equals structural recursion over the unfolding to depth eight |
| SanitizeValue.ResultIsWellShaped | packages/mcp-server/src/errors.ts:278-300 | at most eight container levels, at most 51 items, no dropped key, secret-named keys redacted, no undefined field, and every string leaf a sanitized text, BigInt digits or a fixed note |
| SanitizeValue.IntTextIff | packages/mcp-server/src/errors.ts:280 | the digits of a BigInt are the integer text that reads back as it, sign included |
| SanitizeValue.MoreItemsIff | packages/mcp-server/src/errors.ts:285 | the truncation note spells out the number of items left out |
| ValuePaths.EveryPlaceMeetsItsFate | packages/mcp-server/src/errors.ts:272-302 | along every path of every graph: a string is sanitized where it stands, other leaves keep their value, a fifty-first item counts the rest, secret names hold the marker, and dropped keys, undefined fields and what lies deeper are gone |
| ValuePaths.OrderIsKept | packages/mcp-server/src/errors.ts:289-299 | the fields that stay keep their order |
| SanitizeValue.SecretShowsIff | packages/mcp-server/src/errors.ts:272-302 | the result holds a removed secret iff the unfolded input exposes it in a kept key, a number or literal, BigInt digits or a truncation note |
| SanitizeValue.SecretKeyIsKept | packages/mcp-server/src/errors.ts:290-297 | an object with a secret as an ordinary key keeps that key |
| SanitizeValue.SecretNumberIsKept | packages/mcp-server/src/errors.ts:279 | a secret of digits thrown as a number under an ordinary key is kept and shown |
| ErrorPayload.PayloadHidesSecrets | packages/mcp-server/src/errors.ts:422-487 | a payload with all its fields shows a quiet secret iff the thrown details expose it or a text that is not sanitized holds it: field name, default message, status, tool, trace id, recommendation |
| ErrorPayload.ToolErrorTextShowsIff | packages/mcp-server/src/errors.ts:469-504 | the same of the printed text, for secrets that no escape sequence touches |
| ErrorPayload.ToolErrorReadsBack | packages/mcp-server/src/errors.ts:469-504 | the text of a tool error reads back as an object whose fields are, by name, those of the payload, unset ones missing |
| ErrorPayload.PayloadIsComplete | packages/mcp-server/src/errors.ts:469-487 | status, tool and trace id are passed through, the error is never empty, and code and details are there iff they were given |
| ErrorPayload.HostsStayInTargetRefusals | packages/mcp-server/src/errors.ts:473-477 | a local host in the message stays in refusals of the agent's own target and in no other error |
| ErrorPayload.HostsNeverStayInCode | packages/mcp-server/src/errors.ts:481 | in the code it never stays |
| ErrorPayload.DetailsStringAt | packages/mcp-server/src/errors.ts:478 | every string in the details is sanitized where it stands, in the mode of the message |
| ErrorPayload.AdviceIff | packages/mcp-server/src/errors.ts:422-436 | corollary of the definition: which statuses get which advice, a bad input before any status |
| JsonText.EscapesNeverIntroduceIff | packages/mcp-server/src/errors.ts:501 | for every secret: escaping never introduces it into a text's print iff it can be read neither as escapes that may be cut short at its ends, nor as such behind the backslash of its first character, nor from inside an escape |
| JsonText.EscapesAreSafeIff | packages/mcp-server/src/errors.ts:501 | for a secret without special characters that is to touch no escape sequence |
| JsonText.UnprintableIsAbsent | packages/mcp-server/src/errors.ts:501 | a secret with a control character, or with a quotation mark behind anything but a backslash, is in no print |
| JsonText.FirstCharacterDecides | packages/mcp-server/src/errors.ts:501 | a secret without special characters is safe or unsafe by its first character, and by its match with a control code if that is a `u` |
| JsonText.PrintShowsIff | packages/mcp-server/src/errors.ts:501 | the indented print of a sanitized value holds a token that touches no escape iff some string, key, number or literal of the value does |
| JsonReader.PrintReadsBack | packages/mcp-server/src/errors.ts:501 | a reader of JSON texts reads the print of every sanitized value back as that value, up to non-finite numbers and undefined, which become null or no field |
| JsonText.EscapedFormReturns | packages/mcp-server/src/errors.ts:501 | the escaped form of any text with special characters is not in that text, so printing introduces it |
| JsonText.BackslashSecretReturns | packages/mcp-server/src/errors.ts:501 | a secret with a backslash and an n is printed when the text has a line break in their place |
| ErrorPayload.SanitizeWithEnv | packages/mcp-server/src/errors.ts:34-259 | with the default context no quiet value the environment scan treats as secret is in the text, and for parsers that print origins as URL parsing does every bare value that passes the origin check is quiet |
| ErrorPayload.NumericPasswordShows | packages/mcp-server/src/errors.ts:279-297 | a secret of digits thrown as a number stays in the details, in every context, for all patterns and parsers |
| ContractIdentity.MaskImmutables | packages/backend/src/config/contract-identity.ts:36-42 | the in-place nested loop yields zero on both digits of every byte in a range and the lower-cased input elsewhere |
| ContractIdentity.MaskingLaws | packages/backend/src/config/contract-identity.ts:36-42 | masking keeps the length, is idempotent, and depends only on the positions covered |
| ContractIdentity.CodeIdentityProblem | packages/backend/src/config/contract-identity.ts:49-67 | no problem iff non-empty 0x-hex of the expected length that agrees with the build outside the immutables, and each refusal names the first condition that fails |
| ContractIdentity.IdentityIff | packages/backend/src/config/contract-identity.ts:49-67 | no problem iff non-empty 0x-hex of the expected length that agrees, case aside, with the build at every digit outside the immutables |
| ContractIdentity.IdentityByBytes | packages/backend/src/config/contract-identity.ts:36-67 | the same told by bytes: every digit of a byte in no immutable range is that of the build, case aside |
| ContractIdentity.ImmutablesAreFree | packages/backend/src/config/contract-identity.ts:63 | any hex written over the immutables of an accepted code is accepted |
| ContractIdentity.OneDigitIsRefused | packages/backend/src/config/contract-identity.ts:63-65 | one other digit outside the immutables of an accepted code is refused as other code |
| Addresses.ToChecksumAddress | packages/mcp-server/src/addresses.ts:8-16 | the 40-step loop spells each letter as a capital iff the hash of the lower-cased body asks for one there, and keeps the digits |
| Addresses.AcceptedIff | packages/mcp-server/src/addresses.ts:28-45 | a hex address is accepted iff its body has no capital, or each letter is a capital exactly when the hash asks for one there |
| Addresses.ChecksumLaws | packages/mcp-server/src/addresses.ts:8-16 | the checksum form depends only on the lower-cased address, lower-cases back to it and is its own checksum form, for every hash |
| Addresses.AcceptedSpellings | packages/mcp-server/src/addresses.ts:28-45 | the accepted spellings of an address are exactly its lower-case and its checksum form |
| Addresses.CaseTypoIsRefused | packages/mcp-server/src/addresses.ts:28-32 | changing letter cases of an accepted mixed-case address is accepted only if everything becomes lower-case |
| Addresses.UpperBodyAccepted | packages/mcp-server/src/addresses.ts:18-32 | an all-caps address of EIP-55 is accepted, and is not lower-case, under every hash that asks for upper case at its letters |
| Addresses.LetterlessAccepted | packages/mcp-server/src/addresses.ts:18-32 | corollary of `UpperBodyAcceptedIff`: an address without letters is its own upper-case form and accepted under every hash |
| Addresses.UpperBodyAcceptedIff | packages/mcp-server/src/addresses.ts:18-32 | an all-uppercase body is accepted iff the hash asks for upper case at every letter or there is none |
| Chains.GetRpcCandidates | packages/backend/src/config/chains.ts:115-134 | the usable URLs among override, Alchemy, Infura and public, each once, by first place; throws iff none is usable |
| Chains.CollectedIsUnique | packages/backend/src/config/chains.ts:118-129 | that description admits one list only |
| Chains.OverrideIff | packages/backend/src/config/chains.ts:84-102 | the override is the chain's own variable without the white space around it, and a blank one counts as unset |
| Chains.UsableIff | packages/backend/src/config/chains.ts:80-82 | a URL is usable iff it is set and reads neither "undefined" nor "null" anywhere |
| Chains.OverrideIsPrimaryIff | packages/backend/src/config/chains.ts:80-134 | a configured override is the first candidate, or a candidate at all, iff it is usable |
| Chains.NullInOverrideIsDropped | packages/backend/src/config/chains.ts:80-102 | an override that reads "null" somewhere is configured and yet never used |
| Chains.PublicUrlIsUsable | packages/backend/src/config/chains.ts:72-82 | every public URL is usable, so no supported chain is without a candidate |
| Chains.TryInOrder | packages/backend/src/config/chains.ts:192-204 | the URLs called are an initial stretch; all answers but the last were network failures, the last is the outcome; the trailing throw is unreachable |
| Chains.FallsThroughIff | packages/backend/src/config/chains.ts:163-174 | the next URL is tried after exactly the errors whose message spells one of the six words, in any case |
| Chains.WithFallbackRpc | packages/backend/src/config/chains.ts:186-205 | the fallback runs over exactly the candidates, and on a supported chain the client is always called |
| Contracts.FindLegacyContractConfig | packages/backend/src/config/contracts.ts:328-342 | the nested loops report exactly the configured legacy pairs of the supported chains, by chain and policy module first |
| Contracts.ResolverNeverLegacy | packages/backend/src/config/contracts.ts:158-169 | corollary of the definitions: the resolver never hands out a listed address in any letter case, and gives one of address or legacy exactly when configured |
| Contracts.ResolverDecides | packages/backend/src/config/contracts.ts:118-169 | unset or blank gives nothing, an address listed for the chain in any case is withheld and named, any other is handed out as it is |
| Contracts.ScanDecides | packages/backend/src/config/contracts.ts:118-342 | the scan reports a pair iff the chain is supported and its own variable holds a listed address |
| Contracts.ResolverAgreesWithScan | packages/backend/src/config/contracts.ts:158-342 | corollary of the definitions: on a supported chain the resolver hides an executor iff the scan lists it |
| Contracts.EnvVarInjective | packages/backend/src/config/contracts.ts:127-131 | each chain and contract has its own variable |
| Contracts.VariablesAreIndependent | packages/backend/src/config/contracts.ts:158-342 | changing one variable changes no other pair, in the resolver or in the scan |

## Left out

- Regular-expression engines: the text patterns are arbitrary matchers and the key-name patterns arbitrary predicates, so what a pattern matches is not modelled; the host patterns of `isPrivateHostname` and the name pattern of the environment scan are written out.
- The WHATWG URL parser and keccak-256 are parameters.
- SanitizeText.SecretsNeverInOutput: assumes that reprinting an origin introduces no secret; `OriginSafeIsQuiet` says when that holds for bare ones. The converse is proved for the secret loop, each single pass, the URL rule and, for bare secrets, the whole pipeline over all patterns, since which touching secrets the fixed patterns of the file can complete depends on the patterns.
- SanitizeLimits.BareSecretNeverShownIff: the "only if" half is for secrets of at most 3980 characters, because a longer one may not fit an output line beside a scheme and the inserted text. It ranges over all patterns and all parsers under the law: a domain may be any run of the characters parsing leaves in one, and an IPv6 address any run of its characters.
- JsonText.EscapesAreSafeIff: stated for secrets without quotation marks, backslashes and control characters; `EscapesNeverIntroduceIff` covers the others.
- JsonText.PrintShowsIff: stated for secrets of more than four characters, without space and special characters, not ending in a comma and not part of "-Infinity", since shorter or other ones can be part of the punctuation or a literal of the print.
- Redaction.RedactAllTwice: stated for secrets that do not touch the marker, because a touching one can be redacted again.
- LoginLimitRuns.CountdownIsExact: stated for a limit of at least two, because with a limit of one the first answer is already wrong (`FirstFailureIsHonestIff`).
- LoginLimitRuns.UnlockedBound: stated for a limit of at least two, because with a limit of one every failure but a window's first locks.
- Client ip and user agent from request headers, audit logging, OAuth providers and session callbacks: plumbing around the limiter.
- A clock that goes back, a start before the epoch, and several processes with a table each.
- `parsePositiveInt`: the three limits are any positive integers.
- Upper and lower case beyond ASCII and UTF-16 surrogate pairs; the limiter's key is proved for every case mapping.
- The `__proto__` key and the reordering of integer-like keys when an object is rebuilt, array holes, and objects with getters.
- SanitizePasses.DecidingPassIsApplied: stated for texts in which one pass acts; when several act, the result is the composition that `Sanitize` computes.
- The wording of the recommendations is data; which error gets which one is `AdviceIff`.
- `describeError`, the random trace id and the stderr log line: single-branch logic or values passed through.
- An http status that is not an integer.
- RPC clients, `createChainPublicClient`, the rest of the contract tables, and the generated contract code itself.
- Evaluator recovery, escrow settlement, policy sync and batch routes: their services are not part of this model.
