# Credential core of the Merlin chat server, in Dafny

This project models the credential-handling core of a web chat application. The server is an
Express/MongoDB backend, and the browser client is written in React. The model covers four
pieces:

- **The one-time-passcode store** (`services/otpStore.js`). It is an in-memory map from a
  normalised e-mail address (lower-cased, then trimmed) to the code it was given (six digits
  when it comes from `generateOTP`) and its expiry instant.
  - Codes are issued by overwriting the entry.
  - A code can be read without being consumed.
  - A code is consumed by the first successful check.
  - An expired entry is evicted by the next read of its key, and is never accepted.
  - The store is the class `OtpStore.PasscodeStore`, whose `store` field the methods reassign.
  - Each method is proved equal to a step function on map values (`SetStep`, `GetStep`,
    `VerifyStep`).
  - A trace model (`Apply`, `Run`) states properties of whole call sequences: single use, no
    acceptance after expiry, and isolation between addresses (a sequence of calls that never
    names an address leaves its entry as it was).
- **The chat-completion request builder** (`formatMessages` in `services/openaiService.js`).
  It builds a fixed system prompt, then the usable history entries in order, then the new user
  message. It is an imperative loop, proved against the specification function
  `KeptHistory`. `KeptHistory` is in turn related to an index-level reference, `KeptPositions`.
- **The client's endpoint URL builder** (`getApiUrl` in `frontend/src/config/api.js`), with the
  build-time base URL passed as a parameter.
- **The password authentication routes** (`routes/auth.js`):
  - registration, with its ordered input checks, duplicate refusal and record creation;
  - enumeration-safe login;
  - logout;
  - the profile lookup `/me`.

  The user collection is the class `AuthRoutes.UserTable`. `/register` updates it in place.
  `/login` and `/me` only read it, so they are functions of its `users` sequence. The stored
  password check (`matchPassword`) is a function parameter. A signed token is modelled by the
  user id it carries.

Time is the `now` parameter of each passcode operation, in milliseconds. The random draw of
`generateOTP` is the parameter `roll`, the drawn number minus 100000, that is
`Math.floor(100000 + Math.random() * 900000) - 100000`, which lies in [0, 899999].

Three points of the code that the model keeps as they are:

- `/login` looks the address up exactly as submitted (`routes/auth.js:69`), without the
  lower-casing and trimming the passcode store applies.
- A duplicate registration is answered with status 400 (`routes/auth.js:30-32`), the same
  status as invalid input.
- Codes are drawn from 100000–999999 (`services/otpStore.js:7`), so they never need zero
  padding. `OtpStore.GenerateOtp` states that the first digit is never `0`.

## Model

| member | source | states |
|---|---|---|
| OtpStore.ExpiryMs | services/otpStore.js:4 | the expiry is 10 minutes (600000 ms) when the setting is absent, not a number, or 0; otherwise it is the setting times 60000 ms; it is never 0, and it is positive exactly when the setting is absent or non-negative |
| OtpStore.GenerateOtp | services/otpStore.js:6-8 | the code is six decimal digits, does not start with `0`, and denotes 100000 + roll |
| AsciiText.DecimalString | services/otpStore.js:7 | `String(n)` is a non-empty digit string with no leading zero when n > 0 |
| AsciiText.DecimalRoundTrip | services/otpStore.js:7 | reading the decimal rendering of n back gives n |
| AsciiText.DecimalLength | services/otpStore.js:7 | a number between 10^(k-1) and 10^k is rendered with exactly k characters |
| AsciiText.ToLower | services/otpStore.js:12 | lower-casing keeps the length, maps A–Z to a–z position by position, keeps every other character, and its result is lower-case |
| AsciiText.TrimStartShape | services/otpStore.js:12 | the leading part that is dropped is all white space, and what is kept is a suffix that does not start with white space |
| AsciiText.TrimEndShape | services/otpStore.js:12 | the trailing part that is dropped is all white space, and what is kept is a prefix that does not end with white space |
| AsciiText.Trim | services/otpStore.js:34 | the trimmed string is no longer than the input and neither starts nor ends with white space |
| AsciiText.TrimIsSlice | services/otpStore.js:34 | the trimmed string is a contiguous slice of the input, and everything outside it is white space |
| AsciiText.TrimPadded | services/otpStore.js:34 | trimming a white-space character on each side of an already trimmed string gives that string back |
| AsciiText.TrimIdempotent | services/otpStore.js:34 | trimming twice is trimming once |
| AsciiText.NormalizeIsSlice | services/otpStore.js:12 | the store key is the lower-cased address with its leading and trailing white space cut off: a slice of the lower-cased address, outside of which the address holds only white space |
| AsciiText.NormalizeShape | services/otpStore.js:16 | a store key is lower-case and has no white space at either end |
| AsciiText.NormalizeIdempotent | services/otpStore.js:27 | normalising a key again leaves it unchanged, so passing an already-normalised key names the same entry as the original address |
| OtpStore.SetStep | services/otpStore.js:10-13 | issuing maps the normalised address to the code, expiring `expiryMs` after now, and leaves every other address's entry as it was |
| OtpStore.GetStep | services/otpStore.js:15-24 | a code is returned exactly when the entry exists and now is not past its expiry, and it is the stored code; an expired entry is evicted; otherwise the store is unchanged |
| OtpStore.VerifyStep | services/otpStore.js:26-37 | a submission is accepted exactly when the entry is live and its code equals the trimmed submission; acceptance deletes the entry; an expired entry is evicted; a wrong code or a missing entry leaves the store unchanged |
| OtpStore.PasscodeStore.constructor | services/otpStore.js:2-4 | a new store is empty and keeps the given expiry |
| OtpStore.PasscodeStore.Set | services/otpStore.js:10-13 | the new map is the issuing step applied to the old map |
| OtpStore.PasscodeStore.Get | services/otpStore.js:15-24 | the answer and the new map are the reading step applied to the old map |
| OtpStore.PasscodeStore.VerifyAndClear | services/otpStore.js:26-37 | the verdict and the new map are the checking step applied to the old map |
| OtpStore.GeneratedOtpIsTrimmed | services/otpStore.js:34 | a generated code is unchanged by trimming, so it can match a submission |
| OtpStore.IssueThenVerify | services/otpStore.js:10-37 | a code issued for an address is accepted for any spelling of that address that normalises to the same key, at any instant up to its expiry, and submitting it a second time fails |
| OtpStore.ReissueInvalidatesEarlierCode | services/otpStore.js:12 | after two issues for the same key, only a submission that trims to the later code can be accepted |
| OtpStore.WrongCodeKeepsEntry | services/otpStore.js:34-36 | a wrong submission leaves the entry in place, so the right code is still accepted afterwards |
| OtpStore.MissingEntryChangesNothing | services/otpStore.js:17-29 | with no entry, a read answers nothing, a check fails, and neither changes the store |
| OtpStore.ExpiryBoundary | services/otpStore.js:19-32 | at the expiry instant the code is still readable; one millisecond later both a read and a check evict the entry and fail |
| OtpStore.Run | services/otpStore.js:10-37 | a sequence of calls gets one answer per call |
| OtpStore.AbsentStaysRefused | services/otpStore.js:28-29 | without a new issue, a key that is absent stays absent, and every read or check of it is refused |
| OtpStore.ConsumedAtMostOnce | services/otpStore.js:34-35 | after a successful check, no later call sequence without a re-issue gets that address's code read or accepted again |
| OtpStore.NeverAcceptedAfterExpiry | services/otpStore.js:30-33 | without a re-issue, every read or check made after the entry's deadline is refused, whatever came before |
| OtpStore.OtherKeysUntouched | services/otpStore.js:10-37 | an operation on one address leaves every other address's entry exactly as it was |
| OtpStore.UnconcernedKeyUntouched | services/otpStore.js:10-37 | a sequence of calls none of which names an address leaves that address's entry exactly as it was, or leaves it absent |
| OtpStore.NormalizationExample | services/otpStore.js:12 | `A@B.com` and ` A@b.COM` followed by a tab both name the key `a@b.com` |
| OpenAiService.KeptHistory | services/openaiService.js:48-55 | the copied history is never longer than the history |
| OpenAiService.KeptPositions | services/openaiService.js:49 | the kept positions are in range, strictly increasing, point only at entries with a truthy role and content, and include every such entry |
| OpenAiService.KeptHistoryFollowsPositions | services/openaiService.js:48-55 | the j-th copied message is the role and content of the entry at the j-th kept position |
| OpenAiService.KeptHistoryAppend | services/openaiService.js:48-55 | filtering a concatenation filters each part |
| OpenAiService.KeptHistoryOfUsable | services/openaiService.js:49-54 | a history of usable entries is copied whole, entry by entry |
| OpenAiService.KeptHistoryOfUnusable | services/openaiService.js:49 | a history with no usable entry contributes nothing |
| OpenAiService.KeptMessagesAreNonEmpty | services/openaiService.js:49-53 | only entries with a non-empty role and content are copied, so every history message sent has both |
| OpenAiService.AbsentHistoryIsEmpty | services/openaiService.js:38 | an absent history counts as empty: the list is just the system prompt and the user message |
| OpenAiService.FormatMessages | services/openaiService.js:38-64 | the list is the system prompt, then the kept history in order, then the user message; its length is two plus the number of kept entries |
| ApiConfig.ApiBaseUrl | frontend/src/config/api.js:1-6 | with `VITE_API_URL` unset or empty, every endpoint URL starts with `/`, equals the same-origin URL for that path, and is the path itself when the path starts with `/`; with it set, every endpoint URL is the configured URL followed by the same-origin URL for that path |
| ApiConfig.GetApiUrl | frontend/src/config/api.js:8-11 | the URL starts with the base followed by `/`; a path that starts with `/` is appended as is, any other path after a `/` |
| ApiConfig.LeadingSlashIsOptional | frontend/src/config/api.js:9 | a path without a leading slash gives the same URL as the path with one |
| ApiConfig.PathIsRecoverable | frontend/src/config/api.js:9-10 | what follows the base and the slash is the path, without its leading slash if it had one |
| ApiConfig.EmptyPath | frontend/src/config/api.js:9-10 | the empty path addresses the base followed by `/` |
| ApiConfig.SameOriginThenBase | frontend/src/config/api.js:8-11 | building the same-origin URL and then prefixing a base gives the same URL as using that base directly |
| Wrappers.TruthyIsNonEmpty | routes/auth.js:20 | a request field passes a truthiness test exactly when it is present and holds at least one character; an absent field and the empty string fail |
| AuthRoutes.Find | routes/auth.js:29 | a lookup finds nothing exactly when no record matches, and a record it finds is in the table and matches; `findOne({ email })` here, and `findById` (line 106) used by `AuthRoutes.Me`, are this lookup by address and by id |
| AuthRoutes.PublicViewHidesPassword | routes/auth.js:47-51 | the user object of a response carries the record's id, name and address, and two records that differ only in their password give the same user object |
| AuthRoutes.ValidateRegistration | routes/auth.js:20-26 | a missing or empty field fails with the "all fields" message, and only then; with every field present, a password shorter than 6 fails with the length message, and only then; otherwise the input passes |
| AuthRoutes.UserTable.Register | routes/auth.js:15-57 | invalid input gets 400 with the validation message and changes nothing; a taken address gets 400 "User already exists" and changes nothing; otherwise exactly one fresh record is appended and 201 carries a token for its id and its public fields; unique addresses stay unique |
| AuthRoutes.Login | routes/auth.js:59-98 | status 400 exactly when a field is missing or empty; 401 "Invalid credentials" exactly when the address is unknown or the password does not match; otherwise 200 with a token for a stored user with that address and the matching password, and that user's public fields |
| AuthRoutes.UserTable.Logout | routes/auth.js:100-102 | logout answers 200 with the acknowledgement message and changes nothing |
| AuthRoutes.Me | routes/auth.js:104-119 | 200 with the user's public fields exactly when a record has the token's id; otherwise 500 "Server error" |
| AuthRoutes.LoginIsEnumerationSafe | routes/auth.js:71-80 | an unknown address and a wrong password get the identical 401 response |
| AuthRoutes.LoginValidationIgnoresTable | routes/auth.js:64-66 | a login with a missing field is decided without the table or the password check |
| AuthRoutes.FindOneIsTheUser | routes/auth.js:69 | when addresses are unique, looking up a stored user's address finds that user |
| AuthRoutes.LoginFindsTheUser | routes/auth.js:69-93 | when addresses are unique, the right password for a stored user logs in as exactly that user |
| AuthRoutes.PasswordLengthBoundary | routes/auth.js:24-26 | a six-character password passes the length check and a five-character one fails it |

## Left out

- `generateChatCompletion` (services/openaiService.js) is not modelled: it is a network call to the completion provider.
- The e-mail delivery service, the chat and message routes, the server bootstrap and the React client apart from `getApiUrl` are not modelled: they are data-access, network and rendering code.
- The `protect` middleware (middleware/auth.js) is not part of this model. `/logout` and `/me` are modelled for requests that passed it, and `/me` receives the id its token named.
- `routes/auth.js` has no `/send-otp` or `/verify-otp` handler, although the client calls both (`frontend/src/context/AuthContext.jsx:76`, `:91`). So no route issues or checks passcodes, and the store is modelled on its own.
- `jwt.sign` and its expiry setting: a token is modelled only by the id it carries (`AuthRoutes.Token`).
- Password hashing and `matchPassword` (models/User.js is not part of this model): the comparison is a parameter of `AuthRoutes.Login`, and `UserRecord.password` is what registration handed to the collection.
- The 500 responses of `/register` and `/login` when `User.create` or `User.findOne` throws (database failures) are not modelled. The 500 of `/me` for a vanished user is modelled.
- `Math.random()` and `Date.now()` are replaced by the parameters `roll` and `now`.
- `toLowerCase` and `trim` are modelled on ASCII only. Non-ASCII letters are not lower-cased, and Unicode white space other than tab, line feed, vertical tab, form feed, carriage return and space is not trimmed.
- `String(otp)` applied to a non-string submission (a number, say) is not modelled: a submission is a string.
- Request bodies whose fields are not strings (numbers, objects, arrays) are not modelled: a field is absent or a string.
- `password.length` counts UTF-16 code units; the model counts Dafny characters, which differ only for characters outside the Basic Multilingual Plane.
- `formatMessages`' default for an absent history is modelled as `None`. An absent `newMessage` is not modelled: it is a string.
- OpenAiService.FormatMessages: the inputs on which the source throws are not modelled. A history of `null` is not replaced by the default and fails at `forEach` (`services/openaiService.js:48`). A `null` element fails at `msg.role` (`services/openaiService.js:49`). In both cases the chat route answers 500. Client-supplied entries whose role or content is a truthy non-string (a number, an object) are copied as they are by the source; the model has only strings.
- `.select('+password')` on the login lookup only changes which fields the database returns, so it is not modelled.
- Concurrent requests are not modelled. Each passcode-store operation is synchronous, so it runs as one atomic step of the event loop, as modelled.
- AuthRoutes.UserTable.Register: the duplicate check (`routes/auth.js:29`) and the creation (`routes/auth.js:35`) are separate awaited database calls. The model runs them as one atomic step. Two overlapping registrations for the same address can both pass the check in the source. Only a unique index in models/User.js, which is not part of this model, would stop the second one, and it would turn that request into a 500. The duplicate refusal and the preservation of unique addresses therefore hold only for registrations that do not overlap.
- AuthRoutes.Find: returns the first matching record in table order. Its contract promises only some matching record, since the database's choice among several matches is not specified.
- Database object ids are modelled by the counter `nextId` of `AuthRoutes.UserTable`. A new record's id is fresh and larger than every earlier one; the format of the ids is not modelled.
