# Contact-form validation of the bootcamp site server

The server (`app/server.js`) is an Express application that serves a static
marketing site, a few constant JSON documents and one piece of decision logic:
the `POST /api/contact` handler. That handler reads `name`, `email` and
`message` from the request body and answers with one of three replies:

- HTTP 400, `success: false`, "Please fill in all fields", when any of the
  three fields is absent or the empty string (JavaScript falsiness);
- HTTP 400, `success: false`, "Please enter a valid email address", when the
  address does not match `^[^\s@]+@[^\s@]+\.[^\s@]+$`;
- otherwise, after a one-second timer, the default status 200 with
  `success: true` and "Thank you for your message! We'll get back to you soon."

This project models that handler in Dafny.

- `wrappers.dfy` (module `Wrappers`): `Option`, for a body field that was or
  was not submitted.
- `email_pattern.dfy` (module `EmailPattern`): the pattern.
  - `IsWhitespace` is JavaScript's `\s`. That is the ECMAScript WhiteSpace and
    LineTerminator set. Besides the six ASCII characters (tab, line feed,
    vertical tab, form feed, carriage return, space) it holds U+00A0, U+1680,
    U+2000..U+200A, U+2028, U+2029, U+202F, U+205F, U+3000 and U+FEFF.
  - `MatchesEmail` says the pattern matches. It is stated existentially over
    the index of the `@` and the index of the dot that `\.` matches
    (`SplitsAt`).
  - `WellShaped` is an independent description of the same strings: no
    whitespace, exactly one `@`, a non-empty local part, and after the `@` a
    dot with a character on each side. `MatchesIffWellShaped` proves the two
    agree.
  - `CheckEmail` is a one-pass loop proved to decide `MatchesEmail`.
- `contact.dfy` (module `Contact`): `Filled` is the JavaScript truthiness
  test of app/server.js:42 on one field (submitted and not the empty string), and
  `AllFilled` is its conjunction over the three fields; both are definitions,
  and what they mean for the reply is stated by `HandleContact` and
  `MissingFieldRejected`. `HandleContact` maps the three optional
  fields to a `Reply` (status, success flag, message). The lemmas beside it
  cover the order of the checks, the fixed messages, and the fact that the
  name and message matter only through being non-empty.

The pattern backtracks, and its classes allow `.`. So the dot that `\.`
matches can be any dot after the `@` that has a non-`@`, non-space character
on each side. As a result `a@b.c.d`, `a@b..c` and `a@b.c.` are all accepted
(`AcceptedOddDots`). `a@b`, `a@.c` and `a@b.` are rejected.

## Model

| member | source | states |
|---|---|---|
| `EmailPattern.IsWhitespace` | app/server.js:50 | true of exactly the characters of JavaScript's `\s` (ECMAScript WhiteSpace and LineTerminator); every ASCII tab, LF, VT, FF, CR and space is in it, and `@` and `.` are not |
| `EmailPattern.MatchesEmail` | app/server.js:50-51 | `emailRegex.test(email)`: true of `s` exactly when it splits as L `@` D `.` T with L, D and T in `[^\s@]+`; an accepted string has at least five characters and starts and ends with a `[^\s@]` character |
| `EmailPattern.WhitespaceClass` | app/server.js:50 | no ASCII character other than space, tab, LF, VT, FF and CR is in `\s` (with `IsWhitespace`'s contract: among ASCII characters `\s` is exactly those six); no-break space, line separator and ideographic space are also `\s` |
| `EmailPattern.Compose` | app/server.js:50 | any non-empty local part, domain label and tail free of whitespace and `@` (dots allowed) joined as L `@` D `.` T is accepted |
| `EmailPattern.Decompose` | app/server.js:50 | every accepted address splits as L `@` D `.` T with L, D and T non-empty and free of whitespace and `@` |
| `EmailPattern.SplitChar` | app/server.js:50 | within a successful match no character is whitespace, and a position holds `@` exactly when it is the matched `@` |
| `EmailPattern.AcceptedHasOneAt` | app/server.js:50 | an accepted address contains exactly one `@` |
| `EmailPattern.AcceptedAtUnique` | app/server.js:50 | any two `@` positions of an accepted address are the same position |
| `EmailPattern.AcceptedHasNoWhitespace` | app/server.js:50 | an accepted address contains no `\s` character anywhere |
| `EmailPattern.AcceptedDotAfterAt` | app/server.js:50 | in an accepted address the `@` is not the first character, and some `.` follows it with at least one character between them and at least one after the dot |
| `EmailPattern.MatchesIffWellShaped` | app/server.js:50 | the pattern accepts a string if and only if it has no whitespace, exactly one `@`, a non-empty local part and a dot after the `@` with a character on each side |
| `EmailPattern.AcceptedExamples` | app/server.js:50 | `a@b.c`, `a@b.c.d` and `j.d@ex.org` are accepted: dots in the local part and extra dots in the domain do not cause rejection |
| `EmailPattern.AcceptedOddDots` | app/server.js:50 | `a@b..c` and `a@b.c.` are accepted, because the tail after the matched dot may itself contain dots |
| `EmailPattern.RejectedShapes` | app/server.js:50 | the empty string, `a@b`, `ab.c`, `@b.c`, `a@.c` and `a@b.` are rejected |
| `EmailPattern.RejectedCharacters` | app/server.js:50 | `a b@c.d`, an address ending in a line feed, and `a@b@c.d` are rejected |
| `EmailPattern.CheckEmail` | app/server.js:50-51 | a single left-to-right scan returns true exactly when the pattern matches |
| `Contact.HandleContact` | app/server.js:38-72 | success exactly when all three fields are non-empty and the address matches; status 400 exactly when not successful, 200 otherwise; a successful reply carries the thank-you message; a failed one carries one of the two 400 messages; the "fill in all fields" message appears exactly when some field is missing |
| `Contact.MessagesDistinct` | app/server.js:45-71 | the missing-field, invalid-address and thank-you messages are pairwise different |
| `Contact.MissingFieldRejected` | app/server.js:42-47 | an absent or empty name, email or message gives status 400, `success: false`, "Please fill in all fields" |
| `Contact.MissingFieldBeforeEmail` | app/server.js:42-56 | a request missing a field never gets the invalid-address message, whatever its address |
| `Contact.InvalidEmailRejected` | app/server.js:50-56 | with all fields present, an address outside the pattern gives status 400, `success: false`, "Please enter a valid email address" |
| `Contact.ValidSubmissionAccepted` | app/server.js:51-72 | with all fields present and a matching address, the reply is status 200, `success: true` and the fixed thank-you message |
| `Contact.OnlyPresenceOfNameAndMessageMatters` | app/server.js:42-51 | two requests with the same address whose names and messages agree on being non-empty get the same reply |
| `Contact.AcceptedSubmissionAddress` | app/server.js:50-72 | the address of an accepted submission was present, has exactly one `@` and no whitespace |
| `Contact.HandlerExamples` | app/server.js:42-72 | a request without a name but with a malformed address gets the missing-field message; `ann@b` gets the invalid-address message; `ann@example.com` succeeds |

## Left out

- Express plumbing is not modelled: static file serving, JSON and urlencoded body parsing, the request-logging middleware, the `*` 404 fallback and the 500 error middleware (app/server.js:20-30, 228-242). These are library behaviour.
- The one-second `setTimeout` before the success reply is left out. It is timing only, so only the eventual payload is modelled.
- Logging (`logWithInstance`, wall-clock timestamps, console output) is left out. It is I/O and has no effect on the reply.
- The health endpoint is left out. It reports the clock, uptime, memory usage and runtime version, all taken from the environment.
- The constant stats, curriculum and tools payloads are returned unchanged and have no behaviour; `averageRating: 4.9` is also a float.
- Startup, `app.listen`, signal handlers and `process.exit` are left out. They are process lifecycle.
- Body fields that are not strings (numbers, objects, arrays) are not modelled. JavaScript would coerce them before the truthiness check and the regex test. The model takes each field as an optional string.
- Characters are Dafny characters (Unicode scalar values). The JavaScript pattern has no `u` flag, so it actually runs on UTF-16 code units. For every string both views can hold, they accept the same strings. Every `\s` character is in the Basic Multilingual Plane, and the halves of a surrogate pair are neither `\s` nor `@`. The whitespace set follows current Unicode; U+180E is not in it.
- Strings holding an unpaired UTF-16 surrogate are outside the model. A JSON body can carry one (`"\ud800@b.c"`), and the JavaScript pattern would read it as one `[^\s@]` unit, but no Dafny `char` can hold it.
