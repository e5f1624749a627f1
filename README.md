# Waitlist admission and lookup

This project models the waitlist logic of the Signpost landing site in Dafny.
It has two implementations, kept side by side and not merged.

- **Next.js join route** (`POST /api/waitlist/join`). It checks, in this order:
  - the honeypot field `website`;
  - the request timestamp, which must be a number within 30 000 ms of the server clock;
  - normalisation (`toLowerCase().trim()`);
  - the length, control-character and shape guards;
  - the domain after the `@`, with trailing dots stripped;
  - the five-domain disposable block;
  - two sliding-window rate limits kept in the module's `rateBuckets` map: `global` with limit 10, then `domain:<d>` with limit 3;
  - an `INSERT ... ON CONFLICT (email) DO NOTHING`, which answers a new email and an old one alike.
- **Next.js check route** (`POST /api/waitlist/check`). Every malformed email is answered `{ found: false }`. A found email reports:
  - its `created_at` (`joinedAt`);
  - its position: how many rows were created no later than it;
  - the total number of rows.
- **Convex `join` mutation**. This is the older variant, with a different order of checks:
  - the shape test runs on the raw email, before normalisation;
  - there is no staleness check, no control-character test and no trailing-dot strip;
  - an email already on the list gets its own message, before any rate limit is counted;
  - the only rate limit counts the table's own entries that joined in the last minute.

Modules:

- `Json`: JavaScript values of a decoded body and their truthiness.
- `EmailText`: the text checks both routes share.
  - The shape regex `^[^\s@]+@[^\s@]+\.[^\s@]+$` is a positional predicate.
  - `RegexShapeIff` proves it equal to the pattern read piece by piece.
  - `ShapeIff` proves it equal to the same condition stated in words.
- `RateLimit`: `enforceRateLimit` over the `rateBuckets` map, as the class `RateBuckets`. It also holds the sliding-window guarantee over a run of calls.
- `SqlStore`: the `waitlist` table and its SQL statements, and the class `WaitlistTable`.
- `JoinRoute`:
  - the validation chain `Validate`;
  - the whole route as a function `Join` from the state before to the response and the state after;
  - the handler `Post` as an imperative method proved equal to `Join`.
- `JoinRun`: a run of calls of the join route against one `rateBuckets` map, and the global limit of 10 per minute over that run.
- `CheckRoute`: the check route, which only reads the table. That makes it a function of the rows, and the table is unchanged by construction.
- `ConvexWaitlist`: the mutation, with:
  - `ConvexJoin` as its specification;
  - the class `WaitlistDb`, whose `Join` method performs the mutation on the table;
  - the invariants the mutation keeps: unique emails, and at most ten entries in any minute.
- `Waitlist`: what the join route writes, the check route finds.
- `Divergence`: inputs on which the two join implementations disagree.
- `SafeMessages`: the join form's allow-list of server error texts.

### Modelling choices

- `now` is a parameter: `Date.now()` in the routes and both `Date.now()` calls of the Convex mutation. The row's `created_at` is taken to be that same instant.
- A request body that `request.json()` cannot read is `None`, and so is a body that is the JSON `null`: destructuring `null` (join route.ts:31, check route.ts:6) throws a `TypeError`. The route's outer `catch` answers both with status 500.
- The constructors of `WaitlistTable` and `WaitlistDb` model no source line. Both tables exist outside the code; each constructor gives an empty table from which the invariants are stated.
- White space is the exact set that JavaScript's `\s` and `trim` use. Lower-casing is restricted to the ASCII letters. Lengths count code points.

### Duplicates and the rate limits

The Next.js route answers an email that is already listed exactly as a new one (`src/app/api/waitlist/join/route.ts:117-123`, "don't reveal to user"). It runs both rate limits before the insert, though (`src/app/api/waitlist/join/route.ts:97-117`). So an email already on the list still receives the 429 refusal once its domain's bucket is full, which tells a caller nothing about whether it is listed. With room in both buckets, a new and an old email get the same success (`JoinRoute.AdmittedEmailListedOnce`). With a full bucket, both get the 429 (`JoinRoute.DuplicateCanBeRateLimited`).

### Where the two join implementations differ (proved in `Divergence`)

- `a@mailinator.com.` is refused as disposable by the Next.js route, which strips the trailing dot. The Convex mutation compares the unstripped domain with its list and signs the email up.
- An email with a control character, such as `a\u0001@x.io`, is refused by the Next.js route. It passes the Convex shape test and is signed up.
- An email with leading white space is answered by the Next.js route exactly as the bare email. The Convex mutation rejects it as invalid, because its shape test runs before trimming.

## Model

| member | source | states |
|---|---|---|
| Json.Truthy | src/app/api/waitlist/join/route.ts:34 | falsy exactly for `undefined`, `null`, `false`, `0` and `""`, as `if (website)` reads it |
| Json.TruthyOptional | convex/waitlist.ts:12 | an optional string is truthy exactly when it is present and truthy as a string |
| EmailText.LowerChar | src/app/api/waitlist/join/route.ts:55 | an ASCII capital moves up by 32 code points, every other character is kept, and the result is never a capital |
| EmailText.IsWhitespace | src/app/api/waitlist/join/route.ts:74 | the characters of ECMAScript's WhiteSpace and LineTerminator, which `\s` matches and `trim` removes (a definition) |
| EmailText.Lower | src/app/api/waitlist/join/route.ts:55 | lower-casing keeps the length, maps each character by `LowerChar`, leaves no capital, and changes no character's white-space status |
| EmailText.TrimStart | src/app/api/waitlist/join/route.ts:55 | the result is a suffix of the input that is empty or starts with a non-white-space character |
| EmailText.TrimStartRemovesWhitespace | src/app/api/waitlist/join/route.ts:55 | everything `trimStart` removes is white space |
| EmailText.TrimEnd | src/app/api/waitlist/join/route.ts:55 | the result is a prefix of the input that is empty or ends with a non-white-space character |
| EmailText.TrimEndRemovesWhitespace | src/app/api/waitlist/join/route.ts:55 | everything `trimEnd` removes is white space |
| EmailText.Trim | src/app/api/waitlist/join/route.ts:55 | the result is no longer than the input and has no white space at either end; `TrimIsInner` states which slice it is |
| EmailText.TrimIsInner | src/app/api/waitlist/join/route.ts:55 | `trim` returns a slice of its input with only white space before and after it, so it removes white space at the ends and nothing else |
| EmailText.TrimKeepsNoUpper | src/app/api/waitlist/join/route.ts:55 | trimming a text without capitals leaves none |
| EmailText.Normalize | src/app/api/waitlist/join/route.ts:55 | `toLowerCase().trim()` has no capitals, is no longer than its input, and has no white space at either end; `NormalizeIsTrimmedLower` states which text it is |
| EmailText.NormalizeIsTrimmedLower | src/app/api/waitlist/join/route.ts:54-55 | the lookup key is a slice of the lower-cased input, with only white space of the input before and after it |
| EmailText.NormalizeField | src/app/api/waitlist/join/route.ts:54-55 | a non-string `email` normalises to the empty text, and a string to `Normalize` of it (a definition); the result is no longer than the string, has no capital letter and no white space at either end |
| EmailText.LowerOfNoUpper | src/app/api/waitlist/join/route.ts:55 | lower-casing a text without capitals changes nothing |
| EmailText.LowerAppend | src/app/api/waitlist/join/route.ts:55 | lower-casing works character by character across a concatenation |
| EmailText.LowerOfWhitespace | src/app/api/waitlist/join/route.ts:55 | lower-casing leaves white space as it is |
| EmailText.TrimStartDropsPrefix | src/app/api/waitlist/join/route.ts:55 | a white-space prefix makes no difference to `trimStart` |
| EmailText.TrimEndDropsSuffix | src/app/api/waitlist/join/route.ts:55 | a white-space suffix makes no difference to `trimEnd` |
| EmailText.TrimOfPaddedRight | src/app/api/waitlist/join/route.ts:55 | a white-space suffix makes no difference to `trim` |
| EmailText.PaddingIsIgnored | src/app/api/waitlist/check/route.ts:8-9 | surrounding white space makes no difference to normalisation |
| EmailText.NormalizeIgnoresCaseAndPadding | src/app/api/waitlist/check/route.ts:8-9 | inputs that differ only in ASCII case and surrounding white space get the same lookup key |
| EmailText.TrimOfTrimmed | src/app/api/waitlist/join/route.ts:55 | `trim` leaves a text with non-white-space ends unchanged |
| EmailText.NormalizeIdempotent | src/app/api/waitlist/join/route.ts:54-55 | normalising twice gives the same result as normalising once |
| EmailText.HasControl | src/app/api/waitlist/join/route.ts:65-66 | some character is in `[\x00-\x1f\x7f]` (a definition) |
| EmailText.MatchesShape | src/app/api/waitlist/join/route.ts:73-74 | an `@` after a non-empty local part, an inner `.` after it, and every other character of `[^\s@]`; `RegexShapeIff` proves it is the pattern's language (a definition) |
| EmailText.RegexToPositions | src/app/api/waitlist/join/route.ts:74 | a piece-by-piece match of the pattern gives the positional shape |
| EmailText.PositionsToRegex | src/app/api/waitlist/join/route.ts:74 | the positional shape splits into the pattern's three runs |
| EmailText.RegexShapeIff | src/app/api/waitlist/join/route.ts:74 | the positional shape predicate holds exactly on the strings the anchored pattern `^[^\s@]+@[^\s@]+\.[^\s@]+$` matches |
| EmailText.ShapeIff | src/app/api/waitlist/join/route.ts:74 | the shape holds exactly when there is no white space, exactly one `@` after a non-empty local part, and a `.` in the domain that is neither its first nor its last character |
| EmailText.IsWellFormed | src/app/api/waitlist/join/route.ts:57-79 | the three guards in the route's order: non-empty and at most 254 long, no control character, the shape (a definition) |
| EmailText.IndexOf | src/app/api/waitlist/join/route.ts:81 | no result exactly when the character is absent; otherwise the first position holding it |
| EmailText.SecondField | src/app/api/waitlist/join/route.ts:81 | `split("@")[1]` is absent exactly when there is no `@`; when present it is the text that starts after the first `@` and runs to the next `@` or the end |
| EmailText.ShapedSecondField | src/app/api/waitlist/join/route.ts:74-81 | on a shaped email `split("@")[1]` is the whole tail after the email's only `@`, which follows a non-empty local part |
| EmailText.StripTrailingDots | src/app/api/waitlist/join/route.ts:81 | `replace(/\.+$/, "")` keeps a prefix that does not end in `.`, and everything it removes is a dot |
| RateLimit.Recent | src/app/api/waitlist/join/route.ts:19-21 | the filter keeps no more timestamps than it was given, all at or after the window start |
| RateLimit.RecentMembers | src/app/api/waitlist/join/route.ts:19-21 | a timestamp is kept exactly when it was stored and lies at or after the window start |
| RateLimit.Bucket | src/app/api/waitlist/join/route.ts:19 | `rateBuckets.get(key) ?? []` (a definition); `RateLimit.BucketOfSet` states how it sees a `set` |
| RateLimit.BucketOfSet | src/app/api/waitlist/join/route.ts:19-26 | after `rateBuckets.set(key, b)` the key's bucket is `b`, and every other key's bucket is as before |
| RateLimit.RateBuckets.constructor | src/app/api/waitlist/join/route.ts:14-15 | the limiter starts with no buckets |
| RateLimit.Decide | src/app/api/waitlist/join/route.ts:17-27 | refusal exactly when the window already holds `limit` timestamps; otherwise the new bucket is the window followed by `now`, at most `limit` long, every element at or after `now - 60000` |
| RateLimit.Enforced | src/app/api/waitlist/join/route.ts:22-26 | a refusal leaves the map unchanged; an admission replaces only the key's bucket; no other key changes |
| RateLimit.RateBuckets.Enforce | src/app/api/waitlist/join/route.ts:17-27 | allowed exactly when fewer than `limit` timestamps are in the window; the map afterwards is `Enforced` of the map before, and unchanged when refused |
| RateLimit.RecentTwice | src/app/api/waitlist/join/route.ts:19-21 | filtering with an earlier start and then a later one is filtering with the later one |
| RateLimit.RecentAppend | src/app/api/waitlist/join/route.ts:19-21 | the filter distributes over concatenation |
| RateLimit.InWindowAppend | src/app/api/waitlist/join/route.ts:19-21 | the window count distributes over concatenation |
| RateLimit.InWindowOfPast | src/app/api/waitlist/join/route.ts:19-22 | for timestamps no later than `t`, the closed-window count at `t` is the length of the filter at `t` |
| RateLimit.InWindowShrinks | src/app/api/waitlist/join/route.ts:19-21 | moving the window past all timestamps never counts more of them |
| RateLimit.AdmittedBounded | src/app/api/waitlist/join/route.ts:25 | no admitted timestamp is later than every call's |
| RateLimit.StoredIsRecentAdmitted | src/app/api/waitlist/join/route.ts:17-27 | after any run of calls with a clock that does not go backwards, the stored bucket is the admitted timestamps inside the last admission's window |
| RateLimit.AllowedBucketIsRecent | src/app/api/waitlist/join/route.ts:19-26 | the bucket an allowed call writes is the last admission's window of the admitted run extended by `now` |
| RateLimit.LastOfAppend | src/app/api/waitlist/join/route.ts:25-26 | after appending `now`, the last admission's window is the window ending at `now` |
| RateLimit.WindowBoundStep | src/app/api/waitlist/join/route.ts:19-22 | a call the bucket lets through saw fewer than `limit` admitted timestamps in every window containing `now` |
| RateLimit.AllowedCallBound | src/app/api/waitlist/join/route.ts:17-27 | the same for the bucket a run of calls actually stored |
| RateLimit.AdmittedRespectsLimit | src/app/api/waitlist/join/route.ts:17-27 | the sliding-window guarantee: a run of calls whose clock never goes backwards (`NonDecreasing`) never admits more than `limit` timestamps in any closed 60-second window |
| RateLimit.ClockGoingBackOverAdmits | src/app/api/waitlist/join/route.ts:17-27 | the clock requirement is needed: with limit 2 and calls at `x`, `x + 1`, `x + 70001`, `x + 2`, the window `[x, x + 60000]` holds three admitted timestamps |
| SqlStore.EmailCount | src/app/api/waitlist/join/route.ts:110-115 | the count is zero exactly when no row holds the email |
| SqlStore.UniqueCount | src/app/api/waitlist/join/route.ts:113 | the uniqueness constraint allows at most one row per email |
| SqlStore.EmailCountAppend | src/app/api/waitlist/join/route.ts:110-115 | appending a row adds one to its email's count and nothing to any other's |
| SqlStore.InsertIgnore | src/app/api/waitlist/join/route.ts:110-115 | `ON CONFLICT (email) DO NOTHING`: the email is present afterwards; an existing email leaves the table as it was; a new one appends exactly its row; uniqueness is kept and the email is held exactly once |
| SqlStore.WaitlistTable.InsertOnConflictDoNothing | src/app/api/waitlist/join/route.ts:110-117 | `RETURNING id` gives a row exactly when the email was new; the table becomes `InsertIgnore` of the table before and stays unique |
| SqlStore.FirstWithEmail | src/app/api/waitlist/check/route.ts:26-31 | `WHERE email = ... LIMIT 1`: no row exactly when no row holds the email; otherwise a row of the table holding it |
| SqlStore.FirstWithEmailAppend | src/app/api/waitlist/check/route.ts:26-31 | a row appended with a new email is the one the lookup finds |
| SqlStore.CountAtOrBefore | src/app/api/waitlist/check/route.ts:40-44 | `COUNT(*) WHERE created_at <= t` is at most the number of rows |
| SqlStore.CountIncludesMember | src/app/api/waitlist/check/route.ts:40-44 | a row created no later than `t` is counted, so the count is at least 1 |
| SqlStore.CountMonotone | src/app/api/waitlist/check/route.ts:40-44 | the count only grows as the cut-off moves later |
| SqlStore.CountAll | src/app/api/waitlist/check/route.ts:40-48 | when every row is created no later than `t`, the count is the total |
| SqlStore.CountAppend | src/app/api/waitlist/check/route.ts:40-44 | appending a row adds one exactly when it was created no later than the cut-off |
| JoinRoute.DomainKey | src/app/api/waitlist/join/route.ts:100 | a domain's bucket key is never the global key |
| JoinRoute.Abs | src/app/api/waitlist/join/route.ts:46 | `Math.abs` |
| JoinRoute.Fresh | src/app/api/waitlist/join/route.ts:44-46 | the timestamp is a number no more than 30 000 ms before or after `now` |
| JoinRoute.DomainOf | src/app/api/waitlist/join/route.ts:81 | the domain is absent exactly when the email has no `@`; when present it is a prefix of the text after the first `@` that is empty or does not end in `.`, and everything of that text after it is a dot |
| JoinRoute.ShapedDomainOf | src/app/api/waitlist/join/route.ts:74-81 | on a shaped email the domain is the text after its only `@` with every trailing dot removed |
| JoinRoute.UsableDomain | src/app/api/waitlist/join/route.ts:82 | present, non-empty and at most 253 long: the domains that pass the route's domain guard (a definition) |
| JoinRoute.Validate | src/app/api/waitlist/join/route.ts:43-95 | the validation chain on the timestamp and the normalised email; `ValidateExpired`, `ValidateInvalid`, `ValidateDisposable` and `ValidateAccepted` characterise each outcome (a definition) |
| JoinRoute.ValidateFields | src/app/api/waitlist/join/route.ts:44-95 | the same chain, taking the normalised email directly (a definition) |
| JoinRoute.ValidateExpired | src/app/api/waitlist/join/route.ts:44-52 | the staleness refusal comes exactly when the timestamp is not a number or is more than 30 000 ms from `now` |
| JoinRoute.ValidateInvalid | src/app/api/waitlist/join/route.ts:54-87 | "invalid" comes exactly when the request is fresh and the normalised email fails a guard or leaves no usable domain |
| JoinRoute.MalformedIsInvalid | src/app/api/waitlist/join/route.ts:57-79 | a fresh request whose normalised email fails a guard is invalid |
| JoinRoute.NoDomainIsInvalid | src/app/api/waitlist/join/route.ts:81-87 | a fresh request whose domain is missing, empty or longer than 253 is invalid |
| JoinRoute.InvalidMeansMalformed | src/app/api/waitlist/join/route.ts:54-87 | an invalid verdict implies freshness and a failed guard or domain test |
| JoinRoute.WellFormedIsNotInvalid | src/app/api/waitlist/join/route.ts:89-95 | past the guards and the domain test, only the blocked list can still refuse |
| JoinRoute.ValidateDisposable | src/app/api/waitlist/join/route.ts:89-95 | the disposable refusal comes exactly when everything before it passed and the stripped domain is in the blocked set |
| JoinRoute.DisposableMeansBlocked | src/app/api/waitlist/join/route.ts:89-95 | a disposable verdict implies every earlier test passed and the domain is blocked |
| JoinRoute.DisposableIsRefused | src/app/api/waitlist/join/route.ts:89-95 | a blocked domain past every earlier test is refused as disposable |
| JoinRoute.ValidateSeesNormalizedEmail | src/app/api/waitlist/join/route.ts:54-95 | validation depends on the email only through its normalisation |
| JoinRoute.ValidateAccepted | src/app/api/waitlist/join/route.ts:44-95 | an accepted candidate is fresh; its email is the normalised one and well formed; its domain is the stripped text after the `@`, non-empty, at most 253 long, not ending in `.` and not blocked |
| JoinRoute.ErrorResponse | src/app/api/waitlist/join/route.ts:48-94 | every validation refusal is answered with status 400, and only the staleness refusal carries the expiry message |
| JoinRoute.Admission | src/app/api/waitlist/join/route.ts:29-95 | the candidate a request hands to the rate limiter: none for an unreadable body, the honeypot or a refusal (a definition) |
| JoinRoute.Admit | src/app/api/waitlist/join/route.ts:97-128 | the global bucket, then the domain's, then the insert; `AdmitListedIff`, `AdmitAllowedBuckets` and `AdmitGlobalBucketIs` characterise it (a definition) |
| JoinRoute.Join | src/app/api/waitlist/join/route.ts:29-136 | every success carries "You're on the list!", and a request that never reaches the rate limiter changes no state |
| JoinRoute.JoinOfRefused | src/app/api/waitlist/join/route.ts:44-95 | a request refused by validation gets that refusal's 400 answer and changes nothing |
| JoinRoute.JoinOfAdmitted | src/app/api/waitlist/join/route.ts:97-128 | a request that passes validation is answered by the rate limits and the insert |
| JoinRoute.Post | src/app/api/waitlist/join/route.ts:29-136 | the imperative handler, over a `RateBuckets` and a `WaitlistTable`: its answer and the new buckets and rows are exactly `Join` of the old ones, and the table stays unique |
| JoinRoute.LimitAndInsert | src/app/api/waitlist/join/route.ts:97-128 | the handler's steps after validation, over a `RateBuckets` and a `WaitlistTable`: its answer and the new buckets and rows are exactly `Admit` of the old ones |
| JoinRoute.HoneypotIsSilentSuccess | src/app/api/waitlist/join/route.ts:33-39 | a truthy `website` gets the ordinary success, and neither the buckets nor the table change |
| JoinRoute.StaleRequestExpires | src/app/api/waitlist/join/route.ts:12-52 | without the honeypot, the expiry answer comes exactly when the timestamp is not a number or is more than 30 000 ms away, whatever the email, and nothing changes; a skew of exactly 30 000 ms is not expired |
| JoinRoute.FreshIsNotExpired | src/app/api/waitlist/join/route.ts:43-52 | a fresh request never gets the expiry answer |
| JoinRoute.RefusedIsNotExpired | src/app/api/waitlist/join/route.ts:54-95 | the later refusals never carry the expiry answer |
| JoinRoute.OtherRefusalsAreNotExpiry | src/app/api/waitlist/join/route.ts:59-94 | the invalid and disposable answers differ from the expiry answer |
| JoinRoute.AcceptedIsNotExpired | src/app/api/waitlist/join/route.ts:97-128 | a request past validation never gets the expiry answer |
| JoinRoute.AdmitAnswers | src/app/api/waitlist/join/route.ts:97-128 | past validation, the answer is either the success or the 429 "Too many sign-ups right now" |
| JoinRoute.MalformedEmailIsInvalid | src/app/api/waitlist/join/route.ts:54-87 | an empty or over-254 normalised email, a control character, a shape failure, or no usable domain each get 400 "Invalid email address" and change nothing |
| JoinRoute.DomainOfWellFormed | src/app/api/waitlist/join/route.ts:81-87 | on a well-formed email the domain is present and at most 252 long, so the 253 guard never fires; it strips to nothing exactly when it is all dots (`a@...`) |
| JoinRoute.DisposableDomainIsBlocked | src/app/api/waitlist/join/route.ts:4-95 | a blocked domain gets 400 "Please use a non-disposable email address" and no bucket or row changes |
| JoinRoute.RefusedDisposable | src/app/api/waitlist/join/route.ts:89-95 | the disposable verdict is answered with its message and changes nothing |
| JoinRoute.GlobalDenialTouchesNothing | src/app/api/waitlist/join/route.ts:98-106 | a full global bucket gets the 429 answer, and no bucket changes, the domain's included, nor does the table |
| JoinRoute.DomainDenialKeepsGlobalSlot | src/app/api/waitlist/join/route.ts:98-106 | when the global bucket admits and the domain's is full, the answer is 429; the global slot stays consumed; the domain bucket and the table stay as they were |
| JoinRoute.AdmitDomainDenied | src/app/api/waitlist/join/route.ts:98-106 | the same, stated on the rate-limit step alone |
| JoinRoute.AdmittedEmailListedOnce | src/app/api/waitlist/join/route.ts:97-128 | with room in both buckets, the answer is "You're on the list!" for a new and an old email alike; the rows become `InsertIgnore` of the rows before, stay unique and hold the email once; an old email adds no row and a new one adds exactly its row |
| JoinRoute.AdmitListedOnce | src/app/api/waitlist/join/route.ts:97-128 | the same, stated on the rate-limit and insert step alone |
| JoinRoute.AdmitListedIff | src/app/api/waitlist/join/route.ts:97-128 | past validation, the answer is the success exactly when both buckets have room; the rows are then `InsertIgnore` of the rows before, and a refusal leaves them unchanged |
| JoinRoute.JoinKeepsEmailsUnique | src/app/api/waitlist/join/route.ts:110-115 | every call keeps the email column unique, and changes the table only by appending the request's own normalised email |
| JoinRoute.AdmitKeepsUnique | src/app/api/waitlist/join/route.ts:110-115 | the same, stated on the rate-limit and insert step alone |
| JoinRoute.JoinBucketsStayBounded | src/app/api/waitlist/join/route.ts:17-100 | a bucket a call changes is the global one or the request's domain's; it holds at most that key's limit, every timestamp inside the window ending at `now` |
| JoinRoute.AdmitBucketsBounded | src/app/api/waitlist/join/route.ts:98-100 | the same, stated on the rate-limit step alone |
| JoinRoute.AdmitGlobalBucket | src/app/api/waitlist/join/route.ts:99 | the global bucket is unchanged, or holds at most 10 timestamps, all in the window |
| JoinRoute.AdmitDomainBucket | src/app/api/waitlist/join/route.ts:100 | the domain's bucket is unchanged, or holds at most 3 timestamps, all in the window |
| JoinRoute.AdmitAllowedBuckets | src/app/api/waitlist/join/route.ts:97-100 | with room in both buckets, the global bucket and the domain's are each replaced by their window's timestamps followed by `now` |
| JoinRoute.AdmitGlobalBucketIs | src/app/api/waitlist/join/route.ts:99 | the global bucket afterwards is the global decision's bucket when it allows, and the bucket before when it refuses, whatever the domain's bucket decides |
| JoinRoute.AdmitOtherBucket | src/app/api/waitlist/join/route.ts:98-100 | no bucket other than those two changes |
| JoinRoute.DuplicateCanBeRateLimited | src/app/api/waitlist/join/route.ts:97-117 | an email already on the list still gets the 429 answer once its domain's bucket is full, because the limits run before the insert |
| JoinRun.Attempt | src/app/api/waitlist/join/route.ts:29-99 | the call's time when it gets past the honeypot and validation, nothing otherwise (a definition); `JoinRun.RunGlobalBucket` ties the attempts to the calls of `enforceRateLimit("global", ...)` |
| JoinRun.RunGlobalBucket | src/app/api/waitlist/join/route.ts:15-27 | from an empty global bucket, the route's global bucket after a run of calls is `Stored(10, ...)` of the attempts, and the calls it lets through are `Admitted(10, ...)` of them |
| JoinRun.AttemptsBounded | src/app/api/waitlist/join/route.ts:99 | every attempt is at most any bound on the calls' clock |
| JoinRun.AttemptsInOrder | src/app/api/waitlist/join/route.ts:99 | with a clock that does not go backwards, the attempts are in order |
| JoinRun.GlobalLimitOfRun | src/app/api/waitlist/join/route.ts:15-27 | from an empty global bucket and with a clock that does not go backwards, at most 10 calls of the route in any closed 60-second window get past the global bucket |
| JoinRun.ListedCallPassed | src/app/api/waitlist/join/route.ts:97-128 | a call past validation that is answered with success is one the global bucket let through |
| CheckRoute.Check | src/app/api/waitlist/check/route.ts:4-63 | the 500 answer comes exactly when the body is `None` (unreadable or the JSON `null`); a found entry has 1 <= position <= total, and total is the number of rows |
| CheckRoute.CheckEmail | src/app/api/waitlist/check/route.ts:11-54 | on the normalised email, the answer is never the error; a found entry has 1 <= position <= total, and total is the number of rows |
| CheckRoute.MalformedIsNotFound | src/app/api/waitlist/check/route.ts:8-21 | an empty or over-254 email, a control character, a shape failure, or a non-string email is "not found", never an error |
| CheckRoute.AbsentIsNotFound | src/app/api/waitlist/check/route.ts:26-35 | an email no row holds is "not found" |
| CheckRoute.FoundIff | src/app/api/waitlist/check/route.ts:8-37 | found exactly when the normalised email is well formed and held by a row; otherwise "not found" |
| CheckRoute.FoundEntry | src/app/api/waitlist/check/route.ts:37-54 | a found answer reports a row of the table holding the email, its `created_at`, the number of rows created no later than that as position, and the row count as total |
| CheckRoute.FoundEmailEntry | src/app/api/waitlist/check/route.ts:25-54 | the same, stated on the normalised email |
| CheckRoute.PositionFollowsJoinTime | src/app/api/waitlist/check/route.ts:39-44 | entries sharing one timestamp report the same position, and a later entry never reports a smaller one |
| CheckRoute.CaseAndPaddingAreIgnored | src/app/api/waitlist/check/route.ts:8-9 | emails differing only in ASCII case and surrounding white space get the same answer |
| Waitlist.AdmissionIsAccepted | src/app/api/waitlist/join/route.ts:29-100 | the candidate handed to the rate limiter is the one validation accepted |
| Waitlist.ListedEmailIsFound | src/app/api/waitlist/check/route.ts:8-37 | after a sign-up past the rate limits, the check route finds the email as the client sent it |
| Waitlist.NewEmailIsFoundLast | src/app/api/waitlist/check/route.ts:37-54 | a new email added after every earlier row is found at position n of total n, with `joinedAt` equal to `now` |
| ConvexWaitlist.FirstEntry | convex/waitlist.ts:32-35 | the `by_email` lookup finds nothing exactly when no entry holds the email; otherwise an entry holding it |
| ConvexWaitlist.RecentEntries | convex/waitlist.ts:42-47 | the windowed query keeps an entry exactly when it joined at or after `since`; how many it keeps, and in which order of the table, is fixed by `RecentEntriesAppend` and `RecentEntriesOfOne` |
| ConvexWaitlist.RecentEntriesAppend | convex/waitlist.ts:42-47 | the query over `a + b` is the query over `a` followed by the query over `b` |
| ConvexWaitlist.RecentEntriesOfOne | convex/waitlist.ts:46 | one entry is kept, once, exactly when its `joinedAt >= since` |
| ConvexWaitlist.RecentIsWindowCount | convex/waitlist.ts:42-49 | when no entry joined after `t`, `recentEntries.length` is exactly the number of entries in the closed minute ending at `t` |
| ConvexWaitlist.ConvexJoin | convex/waitlist.ts:10-59 | a thrown error leaves the table unchanged, and the table only ever gains one entry for the normalised email at `now` |
| ConvexWaitlist.Admit | convex/waitlist.ts:22-58 | the same, for the steps after the shape test |
| ConvexWaitlist.InWindow | convex/waitlist.ts:42-51 | the count of entries in a closed minute is at most the table's size |
| ConvexWaitlist.InWindowAppend | convex/waitlist.ts:53-56 | adding an entry adds one to exactly the windows containing its `joinedAt` |
| ConvexWaitlist.InWindowAtMostRecent | convex/waitlist.ts:42-49 | a window starting no earlier than `since` counts no more than the filter keeps |
| ConvexWaitlist.ConvexJoinKeepsWindowBounded | convex/waitlist.ts:41-56 | if no minute held more than ten entries before a call, none does after it, whatever order the calls' clocks come in |
| ConvexWaitlist.AdmitKeepsWindowBounded | convex/waitlist.ts:41-56 | the same, for the steps after the shape test |
| ConvexWaitlist.HoneypotReturnsSuccess | convex/waitlist.ts:11-14 | a non-empty `website` returns "You're on the list!" with no insert |
| ConvexWaitlist.RawShapeFailureThrows | convex/waitlist.ts:16-20 | failing the shape test on the raw email throws "Invalid email address" and inserts nothing |
| ConvexWaitlist.ShapedNormalizeIsLower | convex/waitlist.ts:17-26 | on an email that passed the shape test, normalising just lower-cases it, and `split("@")[1]` is present |
| ConvexWaitlist.BlockedDomainThrows | convex/waitlist.ts:24-29 | an unstripped domain in the list throws "Please use a non-disposable email address" and inserts nothing |
| ConvexWaitlist.DuplicateIsAlreadyListed | convex/waitlist.ts:31-39 | an email already present returns "You're already on the list!" for every `now`, with no insert and before the window is counted |
| ConvexWaitlist.FullWindowThrows | convex/waitlist.ts:41-51 | a new email when ten entries joined in the last minute throws "Too many sign-ups right now. Please try again in a minute." and inserts nothing |
| ConvexWaitlist.InsertIsTheOnlyChange | convex/waitlist.ts:53-58 | the table changes only when every check passed, and then by exactly one entry `{ email: normalised, joinedAt: now }`, with "You're on the list!" |
| ConvexWaitlist.AdmitInserts | convex/waitlist.ts:22-58 | the same, for the steps after the shape test |
| ConvexWaitlist.ConvexJoinKeepsUnique | convex/waitlist.ts:31-56 | every call keeps the emails of the table unique |
| ConvexWaitlist.AdmitKeepsUnique | convex/waitlist.ts:31-56 | the same, for the steps after the shape test |
| ConvexWaitlist.WaitlistDb.Join | convex/waitlist.ts:10-59 | the imperative handler: its outcome and the new table are exactly `ConvexJoin` of the old table, and uniqueness and the window bound are kept |
| Divergence.SameBlockedDomains | convex/waitlist.ts:25 | the Convex list holds the same five domains as the Next.js set |
| Divergence.ShapedLowercaseIsNormal | convex/waitlist.ts:17-22 | a lower-case shaped email is its own normalisation in both implementations |
| Divergence.ConvexPastShape | convex/waitlist.ts:16-22 | on a shaped email the mutation is its steps after the shape test |
| Divergence.ConvexSignsUp | convex/waitlist.ts:24-58 | a new email whose domain is not listed, with room in the window, is inserted |
| Divergence.ConvexSignsUpShaped | convex/waitlist.ts:10-58 | the same, for a lower-case shaped email sent as it is |
| Divergence.BlockedIsNonEmpty | src/app/api/waitlist/join/route.ts:4-10 | every blocked domain is non-empty and at most 253 long |
| Divergence.DotNotBlocked | convex/waitlist.ts:25-27 | no listed domain ends in a dot |
| Divergence.TrailingDotBlockedByNext | src/app/api/waitlist/join/route.ts:81-95 | a well-formed email whose stripped domain is blocked is refused as disposable by the Next.js route |
| Divergence.TrailingDotEvadesConvexBlock | convex/waitlist.ts:24-29 | a blocked domain with trailing dots is refused by the Next.js route and signed up by the Convex mutation |
| Divergence.ControlCharacterPassesConvex | convex/waitlist.ts:16-20 | a shaped email with a control character is invalid for the Next.js route and signed up by the Convex mutation |
| Divergence.PaddingFailsConvexShape | convex/waitlist.ts:16-22 | leading white space makes the Convex mutation throw "Invalid email address", while the Next.js route answers the padded email exactly as the bare one |
| SafeMessages.ShownError | src/app/WaitlistModal.tsx:6-115 | an allow-listed message is shown as it is; any other is shown as "Something went wrong. Try again." |
| SafeMessages.RefusalIsShown | src/app/WaitlistModal.tsx:6-11 | every validation refusal is a 400 whose message the form shows as it is |
| SafeMessages.RateLimitIsShown | src/app/WaitlistModal.tsx:6-11 | the rate-limit refusal is a 429 whose message the form shows as it is |
| SafeMessages.JoinErrorsAreShown | src/app/WaitlistModal.tsx:111-115 | every error of the join route is a 400, 429 or 500 (the 500 exactly for a `None` body: unreadable or the JSON `null`), and the form shows each message as it is |

## Left out

- JSON parsing is not modelled. A body `request.json()` cannot read, or the JSON `null`, is `None`, and the fields are decoded JavaScript values. Non-integer JSON numbers are not modelled: timestamps are integers. That leaves out fractions and the `Infinity` that `JSON.parse` makes of a literal such as `1e999`, which the route answers as expired.
- Unicode case mapping is not modelled: `Lower` maps only `A`-`Z`. Lengths count code points, not UTF-16 code units, so guards at 254 and 253 characters differ from the code for non-BMP text.
- Errors of the database driver, of `getDb()` and of the Convex runtime are left out. The model's only 500 answer is the `None` body; the other paths to the outer `catch` are not modelled.
- `console.error` logging is left out; it is output only.
- Concurrency is out of scope: calls are modelled one after another. This covers races on the module-level `rateBuckets` map, concurrent `ON CONFLICT` inserts and interleaved Convex mutations. So is the map's reset on a cold start.
- The row's `created_at` is set by the database clock; the model takes it to be the request's `now`.
- `convex/schema.ts` shapes the `Entry` datatype, with `domain` optional. Its `rateLimits` table is used by no code shown and is left out.
- Convex argument validation (`v.string()`, `v.optional(v.string())`) is taken as given by the parameter types.
- The form's network calls, timers and rendering are left out; only its allow-list of messages is modelled.
- RateLimit.Recent: its contract does not list the kept timestamps. `RateLimit.RecentMembers` states which timestamps are kept, so the filter's contract stays small.
- ConvexWaitlist.RecentEntries: its contract states which entries are kept, not how often; `RecentEntriesAppend` and `RecentEntriesOfOne` fix the list, and `RecentIsWindowCount` its length. The list is in the table's order, not the `.order("desc")` order the query asks for; only its length is read.
- EmailText.Trim: its contract states the ends and the length; which slice it returns is stated by `EmailText.TrimIsInner`.
- EmailText.NormalizeField: its contract states the result's shape; that it is `Normalize` of a string and the empty text otherwise is its definition.
- EmailText.Normalize: its contract states the result's shape; that it is the lower-cased input trimmed is stated by `EmailText.NormalizeIsTrimmedLower`.
- JoinRoute.Join: its contract only states the success message and that pre-limiter requests change nothing; the remaining behaviour is stated by the lemmas after it.
