# Contact form: rate limiter, route and client state machine

This project models the contact feature of a personal portfolio site, in Dafny. It has two halves.

- **The server route** (`app/api/contact/route.ts`) covers four things:
  - the in-memory sliding-window rate limiter `isRateLimited` and its `rateLimitMap`;
  - the `POST` handler, which derives a caller key from the request headers, checks the limiter, runs a chain of guarded validations and answers with a status code and a message;
  - the `escapeHtml` helper;
  - the e-mail pattern `^[^\s@]+@[^\s@]+\.[^\s@]+$`, which both halves use.
- **The client form** (`components/contact.tsx`) covers:
  - `handleChange`;
  - the pre-validation of `handleSubmit`;
  - the `idle / loading / success / error` status machine, with its reset timers.

The project has seven modules:

- `Wrappers` (`wrappers.dfy`): `Option`.
- `JsString` (`js_string.dfy`): what JavaScript's `.length` counts, in UTF-16 code units, and what the regex class `\s` matches.
- `EmailPattern` (`email_pattern.dfy`): the regular expression, and a plain-words characterisation proved equivalent to it.
- `RateLimit` (`rate_limit.dfy`):
  - `Check`, a function giving one limiter call on the table as a value;
  - the `RateLimiter` class, whose `IsRateLimited` method runs the filter loop in place and is proved equal to `Check`;
  - lemmas on counting, ordering and bursts of calls.
- `HtmlEscape` (`html_escape.dfy`): the escaping function, a decoder proved to invert it, and its length, idempotence and output properties.
- `ContactRoute` (`contact_route.dfy`): the JavaScript values the checks test, the validation chain, the responses, and `POST` as a method on a limiter.
- `ContactForm` (`contact_form.dfy`):
  - the form data and the client-side checks;
  - the component state as a class whose methods are the event handlers;
  - lemmas relating the client checks to the route's verdicts.

String lengths follow JavaScript. A character above U+FFFF counts as two code units (`Utf16Length`). Pattern matching on characters gives the same verdict as matching on code units, because neither half of a surrogate pair is whitespace or `@`.

The clock (`Date.now()`) is a parameter of the limiter. The other parts of the model take these foreign results as inputs:

- the request headers;
- the decoded JSON body;
- the outcome of the client's `fetch`.

Every timer the client schedules is a pending reset. Its firing is a separate event, `ResetTimerFired`. Timers are never cancelled, so a reset scheduled by one submission can fire while a later request is still loading. `StaleResetScenario` shows this happening: the status goes back to idle with a request in flight, and the form re-enables itself.

A rejected call returns at route.ts line 14, before `rateLimitMap.set` at line 18. So it neither prunes nor records anything, and the table stays exactly as it was (`RateLimit.Check`, first ensures).

## Model

| member | source | states |
|---|---|---|
| JsString.Utf16Length | app/api/contact/route.ts:55-59 | `.length` lies between the number of characters and twice that, and is zero exactly for the empty string |
| JsString.Utf16LengthInBmp | app/api/contact/route.ts:55-59 | For text with no character above U+FFFF, `.length` is the number of characters |
| JsString.IsJsWhitespace | app/api/contact/route.ts:49 | The class `\s` of the pattern: every whitespace character lies in the BMP and is neither `@` nor `.` |
| JsString.Occurrences | app/api/contact/route.ts:110 | The number of occurrences of a character is at most the length, and is zero exactly when the character is absent |
| EmailPattern.Matches | app/api/contact/route.ts:49-50 | The anchored pattern `^[^\s@]+@[^\s@]+\.[^\s@]+$`, also used at components/contact.tsx line 60: a match has at least 5 characters, contains `@` and `.`, and does not start with `@` |
| EmailPattern.MatchesImpliesPlainRule | app/api/contact/route.ts:49-50 | A string matching the pattern has no whitespace and exactly one `@`, which is not first. After the `@` there is a `.` that is neither right after it nor last |
| EmailPattern.PlainRuleImpliesMatches | app/api/contact/route.ts:49-50 | Every string with those properties matches the pattern |
| EmailPattern.MatchesIffPlainRule | app/api/contact/route.ts:49-50 | The pattern accepts exactly the strings of the plain rule |
| RateLimit.Lookup | app/api/contact/route.ts:8 | A stored key yields its list. A missing key yields the empty list |
| RateLimit.Recent | app/api/contact/route.ts:11 | The filter returns no more times than it was given, and every time it returns is strictly inside the window |
| RateLimit.RecentConcat | app/api/contact/route.ts:11 | The filter distributes over concatenation, so the kept times stay in their order |
| RateLimit.RecentContents | app/api/contact/route.ts:11 | The filter keeps every occurrence of an in-window time and drops every out-of-window one (a multiset characterisation) |
| RateLimit.RecentOfFresh | app/api/contact/route.ts:11 | A list wholly inside the window is returned unchanged |
| RateLimit.RecentOfStale | app/api/contact/route.ts:11 | A list wholly outside the window filters to nothing |
| RateLimit.RecentCounts | app/api/contact/route.ts:11-13 | The length compared with `maxRequests` is the number of stored times still in the window |
| RateLimit.Check | app/api/contact/route.ts:6-21 | A rejected call leaves the table unchanged. An admitted call adds the key if it was missing. No other key changes, and no key is ever removed |
| RateLimit.LimitedIffCountReached | app/api/contact/route.ts:13-15 | A call is rejected exactly when the in-window count for its key has reached `maxRequests` |
| RateLimit.AdmittedStoresPrunedList | app/api/contact/route.ts:17-18 | An admitted call stores the in-window times, in their old order, followed by `now` |
| RateLimit.AdmittedWithinLimit | app/api/contact/route.ts:13-18 | After an admitted call, the key holds at most `maxRequests` times, all inside a positive window |
| RateLimit.CheckKeepsWithinLimit | app/api/contact/route.ts:6-21 | With a fixed limit, a call preserves the invariant that every key holds at most `maxRequests` times |
| RateLimit.RecentKeepsSorted | app/api/contact/route.ts:11 | Filtering keeps an oldest-first list oldest first and under the same bound, and adds no time |
| RateLimit.CheckKeepsOrdered | app/api/contact/route.ts:6-21 | Under a clock that never goes back, calls keep every stored list oldest first and no later than the clock |
| RateLimit.AdmittedAfterWindow | app/api/contact/route.ts:11-18 | Once all of a key's stored times have left the window, it is admitted again (for a positive limit) and holds just `[now]` |
| RateLimit.Replay | app/api/contact/route.ts:6-21 | A sequence of sequential calls yields one verdict per call |
| RateLimit.BurstFrom | app/api/contact/route.ts:6-21 | With `stored` times already present at a fixed clock, call `i` of a burst is rejected exactly when `stored + i` reaches the limit |
| RateLimit.BurstFromEmpty | app/api/contact/route.ts:4-21 | From the empty map at a fixed clock, the first `maxRequests` calls of a key are admitted and every later one is rejected |
| RateLimit.RateLimiter.constructor | app/api/contact/route.ts:4 | The limiter starts with the empty map |
| RateLimit.RateLimiter.IsRateLimited | app/api/contact/route.ts:6-21 | The in-place loop returns the verdict of `Check` on the old table and leaves the table `Check` computes |
| HtmlEscape.Reference | app/api/contact/route.ts:103-109 | Each of `& < > " '` maps to a reference that starts with `&` and ends with `;`. Every other character maps to itself |
| HtmlEscape.EscapeHtml | app/api/contact/route.ts:102-111 | The output contains none of `< > " '` |
| HtmlEscape.UnescapeEscape | app/api/contact/route.ts:102-111 | Decoding the five references gives back the original text, so escaping loses nothing and keeps the order |
| HtmlEscape.AmpersandsBeginReferences | app/api/contact/route.ts:102-111 | Every `&` in the output begins one of `&amp; &lt; &gt; &quot; &#039;` |
| HtmlEscape.EscapeLength | app/api/contact/route.ts:103-110 | The output length is the input length plus 4 per `&`, 3 per `<` or `>`, and 5 per `"` or `'` |
| HtmlEscape.EscapePlain | app/api/contact/route.ts:110 | Text with none of the five characters is left unchanged |
| HtmlEscape.EscapeWritesAmpersand | app/api/contact/route.ts:110 | Text containing a special character escapes to text containing `&` |
| HtmlEscape.EscapeIdempotentIffPlain | app/api/contact/route.ts:102-111 | Escaping twice equals escaping once exactly when the text had no special character |
| HtmlEscape.EscapeExamples | app/api/contact/route.ts:104-110 | `<` becomes `&lt;`, and `&lt;` becomes `&amp;lt;` |
| ContactRoute.Truthy | app/api/contact/route.ts:40 | `undefined` and `null` are falsy, a string is truthy exactly when it is non-empty, and an object or array is truthy |
| ContactRoute.Property | app/api/contact/route.ts:37 | Destructuring reads a present property and yields `undefined` for an absent one |
| ContactRoute.Validate | app/api/contact/route.ts:40-61 | The reported reason is a violated check with no violated check earlier in the chain. No reason is reported exactly when no check is violated |
| ContactRoute.Rejection | app/api/contact/route.ts:41-60 | Every validation failure answers 400 with a non-empty message |
| ContactRoute.RejectionInjective | app/api/contact/route.ts:41-60 | Each of the five failures has its own message |
| ContactRoute.HandleBody | app/api/contact/route.ts:36-61 | The status is 200, 400 or 500. It is 500 (the catch-all message) exactly when the body fails to decode or is `null`. A 200 is the success answer, given exactly when all three fields pass every check. A 400 is the rejection for the reason `Validate` reports on the body's three properties |
| ContactRoute.CallerKey | app/api/contact/route.ts:26 | The key is never empty, and is `x-forwarded-for`, `x-real-ip` or `unknown`. An absent or empty header is skipped |
| ContactRoute.Post | app/api/contact/route.ts:23-99 | The limiter table advances as `Check` says. A limited caller gets 429 whatever its body. Otherwise the answer is that of `HandleBody` |
| ContactRoute.Verdict | app/api/contact/route.ts:40-94 | For three strings: the success answer exactly when they pass every check. Otherwise the rejection for a failed check with no failed check before it |
| ContactRoute.ValidSubmissionAccepted | app/api/contact/route.ts:91-94 | The example `Jane Doe`, `jane@example.com` and a 20-character message receive the success answer |
| ContactRoute.AcceptedWithinBounds | app/api/contact/route.ts:55-61 | With a matching address, a name of 2 to 100 characters and a message of 10 to 5000 are accepted: both bounds are inclusive |
| ContactRoute.NameOutOfBoundsRejected | app/api/contact/route.ts:55-56 | With a matching address, a one-character name or one longer than 100 gets the name-length error, whatever the (non-empty) message |
| ContactRoute.MessageOutOfBoundsRejected | app/api/contact/route.ts:59-60 | With a matching address and a valid name, a non-empty message shorter than 10 or longer than 5000 gets the message-length error |
| ContactRoute.AstralNameOfOneCharacterAccepted | app/api/contact/route.ts:55 | A name of one character above U+FFFF counts as two code units, so it is accepted |
| ContactRoute.AddressWithoutAtRejected | app/api/contact/route.ts:49-51 | Three non-empty strings whose address holds no `@` get the e-mail error |
| ContactRoute.AddressWithSpaceRejected | app/api/contact/route.ts:49-51 | A non-empty name and message with an address holding a space get the e-mail error |
| ContactRoute.TruthyNonStringMessageRejected | app/api/contact/route.ts:40-45 | An object whose three properties are truthy but whose `message` is not a string gets the type error, not the missing-field error |
| ContactRoute.MissingMessageRejected | app/api/contact/route.ts:40-41 | Every object without a `message` property gets the missing-field error |
| ContactForm.Update | components/contact.tsx:43-46 | The changed field takes the new value, and the other two keep theirs |
| ContactForm.ClientError | components/contact.tsx:52-74 | No error exactly when the form passes all three client checks. "Fill in all fields" exactly when a field is empty. The address error exactly when the fields are filled and the pattern fails. The short-message error exactly when the earlier checks pass and the message is under 10 code units |
| ContactForm.ErrorText | components/contact.tsx:92-101 | The shown error text is never empty. A thrown request shows "An error occurred. Please try again later." A response shows its server message when that is a non-empty string, and "Failed to send message. Please try again." otherwise |
| ContactForm.IsOk | components/contact.tsx:88 | `response.ok`: the status is in the 2xx class |
| ContactForm.InputsEnabled | components/contact.tsx:156-196 | The inputs are enabled in every state but loading, and whenever the submit button is |
| ContactForm.SubmitEnabled | components/contact.tsx:224 | The button is enabled exactly in `idle` and `error` |
| ContactForm.ContactFormState.constructor | components/contact.tsx:15-21 | The form starts empty and idle, with no error, no pending timer and no request |
| ContactForm.ContactFormState.HandleChange | components/contact.tsx:43-46 | Only the form changes, by `Update` |
| ContactForm.ContactFormState.ScheduleReset | components/contact.tsx:55-101 | Each `setTimeout` call adds exactly one pending reset |
| ContactForm.ContactFormState.HandleSubmit | components/contact.tsx:48-86 | A failing check sets `error` with its message, schedules one reset and sends nothing. Otherwise the status becomes `loading`, the message is cleared and the unchanged form is sent |
| ContactForm.ContactFormState.ResponseArrived | components/contact.tsx:88-102 | An ok response gives `success` and clears the form. Anything else gives `error` with `ErrorText`. Either way one reset is scheduled |
| ContactForm.ContactFormState.ResetTimerFired | components/contact.tsx:55-101 | A firing reset sets `idle` from any state and changes nothing else |
| ContactForm.StaleResetScenario | components/contact.tsx:55-91 | A reset left over from a failed check returns a loading form to `idle`, with its request still in flight and the inputs and button enabled |
| ContactForm.ServerAcceptanceImpliesClientAcceptance | components/contact.tsx:52-74 | Whatever the route accepts also passes the client checks |
| ContactForm.ClientCheckedFormVerdict | components/contact.tsx:85 | Once past the rate check, a form that passes the client checks can only be refused by the route for the length of its name or message |
| ContactForm.ClientLooserThanServer | components/contact.tsx:52-74 | The converse fails: the client sends every form with a one-character name in the BMP, a matching address and a message of at least 10 code units, and the route rejects each one for its name |
| ContactForm.ClientShowsRouteAnswer | components/contact.tsx:88-97 | For every route answer, the client shows success exactly for the 200, and otherwise shows the route's own message |

## Left out

- Rendering is not modelled: the JSX, the animation variants, `useInView` and the icons. Only the `disabled` conditions are kept, as `InputsEnabled` and `SubmitEnabled`.
- `Date.now()` is the `now` parameter. Times are integers, because JavaScript numbers hold whole milliseconds exactly at this magnitude.
- The timer delays (4000 and 5000 ms) are not modelled. Any pending reset may fire next, which admits more orders than real time would.
- `fetch`, `NextRequest`, `NextResponse` and `request.json()` are foreign. Their results are inputs: the headers, `Decoded`, and `FetchOutcome`. JSON serialisation of the request body is not modelled.
- The `console.log` and `console.error` calls are output only, and are not modelled.
- The commented-out Resend block is not code, so it is not modelled. It is the only caller of `escapeHtml`, and that call's `.replace(/\n/g, '<br>')` is not modelled either.
- Concurrency is not modelled: calls to `POST` are sequential. Interleavings of concurrent requests on the shared map are not explored.
- Strings are sequences of Unicode scalar values, so they cannot hold a lone surrogate. Such an input would behave the same, but cannot be expressed.
- ContactRoute.Value keeps a JSON number only as zero or non-zero. That is all truthiness and `typeof` look at.
- A non-ok response whose JSON body is `null` makes reading `data.message` throw, so the client shows the network-failure text. The model folds that case into `Threw`.
- ContactForm.FetchOutcome keeps `data.message` only when it is a string. A truthy non-string `message` in an error body would be shown as is by the client, and that case is not modelled.
- x-forwarded-for is used verbatim as the key. No parsing of comma-separated proxy lists is modelled, and the source does none.
- `HandleSubmit` has no precondition on `status`. The page only submits while `SubmitEnabled` holds, so the model allows more calls than the page makes.
- The rest of the site (other components, pages and UI primitives) is outside this model.
- ContactRoute.AcceptedWithinBounds: stated only for text without characters above U+FFFF, where `.length` is the character count. `Validate` itself counts code units for all text.
- ContactRoute.NameOutOfBoundsRejected: stated only for names without characters above U+FFFF, for the same reason.
- ContactRoute.MessageOutOfBoundsRejected: stated only for names and messages without characters above U+FFFF, for the same reason.
