# Phone verification and JWT authentication core, in Dafny

This project models the authentication core of a NestJS back end:

- `AuthService.sendVerificationCode` draws a six-digit code. Outside develop mode it refuses a phone number that already has ten requests in today's window. Otherwise it posts the code to the Aligo SMS vendor, records the request in the `authHistory` table and reports whether a user with that phone number exists. The service fixes `IS_DEV` when it is constructed.
- `dateUtils` supplies the Korean-time shift (`getKoreanDate`). It also supplies `combineDateAndTime`, which builds the bounds of the daily window from `"00:00:00"` and `"23:59:59"`.
- `TokenService` signs access and refresh tokens with `{ sub: userId.toString() }` under secrets and lifetimes read from the configuration. It also verifies them (every error becomes `null`) and decodes them without verification.
- `JwtAuthGuard` takes a bearer token from the `Authorization` header. It verifies the token under the access secret, stores the payload as `req.user`, and answers every failure with one of two `UnauthorizedException` messages.

Layout:

- `wrappers.dfy` holds `Option` and `Result`.
- `strings.dfy` holds the JavaScript string operations the core relies on: `split`, ASCII `toLowerCase`, `Number` on digit strings, and `toString` of integers.
- `date_utils.dfy` models dates as millisecond instants read through a fixed host offset `tz`.
- `collaborators.dfy` holds `ConfigService.get` over a map. The JWT library is a value of three total functions: `sign`, `verify` and `decode`.
- `token_service.dfy`, `jwt_auth_guard.dfy` and `auth_service.dfy` hold the three classes.

State the source changes in place stays mutable in the model:

- The service holds its two tables as `seq` fields and updates them.
- The SMS vendor is an object that logs each request posted to it.
- The guard writes `user` on a request object.

The inputs the source takes from its environment become parameters of `SendVerificationCode`:

- the random draw, as an offset in [0, 900000);
- whether the vendor call throws, which `AligoGateway.Post` passes through;
- the two clock readings.

Several proofs take a property of the JWT library as a hypothesis, stated as a predicate:

- it accepts its own tokens;
- it rejects tokens checked under another secret.

## Model

| member | source | states |
|---|---|---|
| Strings.Split | src/auth/guards/jwt-auth.guard.ts:16 | `split(' ')` yields at least one piece, no piece contains the separator, and joining the pieces with the separator gives back the input |
| Strings.SplitJoin | src/auth/guards/jwt-auth.guard.ts:16 | splitting the join of separator-free pieces gives back exactly those pieces (split and join are inverse) |
| Strings.NatToDecimal | src/auth/auth.service.ts:18 | `toString` of a non-negative number is a non-empty digit string that reads back as the number and has no leading zero |
| Strings.SixDigitNumeral | src/auth/auth.service.ts:18 | every number in [100000, 999999] prints as exactly six digits |
| Strings.ToLower | src/auth/guards/jwt-auth.guard.ts:17 | `toLowerCase` keeps the length, leaves no capital letter, changes no other character and maps each capital to its small letter |
| Strings.ToLowerIdempotent | src/auth/guards/jwt-auth.guard.ts:17 | lower-casing an already lower-cased scheme changes nothing |
| Strings.ParseNumber | src/utils/dateUtils.ts:5 | `Number(field)` gives a value exactly when the field is all decimal digits, and that value is the digits read in base 10 |
| Strings.IntToDecimal | src/auth/token.service.ts:20 | `toString` of a bigint starts with `-` exactly for negatives, followed by the digits of the magnitude without leading zeros |
| Strings.IntToDecimalRoundTrip | src/auth/token.service.ts:20 | `userId.toString()` reads back as the same integer, negative ids included |
| DateUtils.GetKoreanDate | src/utils/dateUtils.ts:1-3 | the result lies exactly nine hours (32 400 000 ms) after the input |
| DateUtils.KoreanDateIsKoreanWallClock | src/utils/dateUtils.ts:1-3 | reading the shifted instant in the host zone gives the day and clock time of the original instant in a zone nine hours further east |
| DateUtils.SetHours | src/utils/dateUtils.ts:7 | `setHours(h, m, s, ms)` gives the instant `h:m:s.ms` after local midnight of the date's day, whose millisecond field is `ms` modulo 1000 |
| DateUtils.ReadClock | src/utils/dateUtils.ts:5 | `time.split(':').map(Number)` fails (an Invalid Date follows) exactly when there are fewer than three pieces or one of the first three is not a digit string; otherwise the clock is the base-10 values of the first three pieces |
| DateUtils.CombineDateAndTime | src/utils/dateUtils.ts:4-9 | an Invalid Date exactly when the text cannot be read; otherwise milliseconds 0 and the read `h:m:s` as the offset from local midnight of the date's day |
| DateUtils.ReadClockString | src/utils/dateUtils.ts:5 | an `HH:MM:SS` string, with or without more `:` pieces, is read as hours, minutes and seconds in that order |
| DateUtils.CombineReadsClockString | src/utils/dateUtils.ts:4-9 | `combineDateAndTime` on such a string is `setHours(h, m, s, 0)` on a copy of the date |
| DateUtils.SetHoursReadsBack | src/utils/dateUtils.ts:7 | `setHours` with in-range fields keeps the local day and reads back exactly the fields set, with milliseconds 0 |
| DateUtils.CombineDateAndTimeSetsClock | src/utils/dateUtils.ts:4-9 | `combineDateAndTime(date, "HH:MM:SS")` keeps the day of `date` and sets hours, minutes and seconds from the string, milliseconds 0 |
| DateUtils.TodayWindow | src/auth/auth.service.ts:24-25 | the bounds from `"00:00:00"` and `"23:59:59"` are local midnight of today and 23:59:59.000 of the same day |
| DateUtils.InTodayWindow | src/auth/auth.service.ts:23-26 | an instant is inside today's window exactly when it falls on the same local day no later than 23:59:59.000 |
| DateUtils.WindowOfDay | src/auth/auth.service.ts:23-26 | every instant inside the window of a day falls on that day |
| Collaborators.Get | src/auth/token.service.ts:22 | `configService.get(key)` gives a value exactly when the key is configured, and that value is the configured text; otherwise `undefined` |
| TokenService.SubjectClaims | src/auth/token.service.ts:20 | the signed payload has the single claim `sub`, whose text reads back as the user id |
| TokenService.SubjectOfUser123 | src/auth/token.service.spec.ts:64-66 | user 123 is signed as `{ sub: "123" }` |
| TokenService.LargeSubject | src/auth/token.service.spec.ts:75-77 | the bigint id 999999999999999 is signed as its full decimal text |
| TokenService.GenerateAccessToken | src/auth/token.service.ts:18-26 | the token is the library's `sign` of the subject under the access secret and lifetime; if the library accepts its own tokens, a returned token verifies back to the same user id |
| TokenService.GenerateRefreshToken | src/auth/token.service.ts:28-36 | the same as the access generator, under the refresh secret and lifetime |
| TokenService.VerifyAccessToken | src/auth/token.service.ts:38-46 | `null` exactly when the library's `verify` under the access secret throws, else the payload it returned |
| TokenService.VerifyRefreshToken | src/auth/token.service.ts:49-57 | the same as the access verifier, under the refresh secret |
| TokenService.DecodeToken | src/auth/token.service.ts:59-61 | the library's unverified decoding, `null` included; it takes no secret and no configuration |
| TokenService.DecodeSkipsVerification | src/auth/token.service.ts:59-61 | decoding depends on neither the configuration nor the library's `sign` and `verify`, so a token that fails both verifiers is still decoded; the result is `null` exactly when the library's decoding is |
| TokenService.GeneratorsReadOnlyTheirKeys | src/auth/token.service.ts:18-36 | each generator depends only on its own secret and lifetime keys |
| TokenService.VerifiersReadOnlyTheirSecret | src/auth/token.service.ts:38-57 | each verifier depends only on its own secret key |
| TokenService.MissingConfigurationPassesUndefined | src/auth/token.service.spec.ts:256-263 | with nothing configured, the generators still call `sign`, with an undefined secret and lifetime |
| TokenService.TokensAreNotInterchangeable | src/auth/token.service.ts:18-57 | if the secrets differ and the library rejects foreign tokens, an issued access token fails refresh verification and vice versa |
| AuthGuard.ExtractToken | src/auth/guards/jwt-auth.guard.ts:13-18 | every token returned is one that `BearerCredentials` accepts: `bearer` in any case, one space, a non-empty space-free token, then the end or a space |
| AuthGuard.ExtractTokenComplete | src/auth/guards/jwt-auth.guard.ts:13-18 | every header `BearerCredentials` accepts yields exactly its token (the converse of `ExtractToken`'s contract) |
| AuthGuard.BearerHeader | src/auth/guards/jwt-auth.guard.ts:16-17 | `Bearer <token>` yields the token for every non-empty token without spaces |
| AuthGuard.Refused | src/auth/guards/jwt-auth.guard.ts:15-17 | a header that does not start with `bearer`, a space and a non-space character gives `null` |
| AuthGuard.ExtractTokenPlainExample | src/auth/guards/jwt-auth.guard.ts:16-17 | `Bearer abc` yields `abc` |
| AuthGuard.ExtractTokenSchemeCaseExample | src/auth/guards/jwt-auth.guard.ts:17 | the scheme is matched case-insensitively |
| AuthGuard.ExtractTokenExtraPiecesExample | src/auth/guards/jwt-auth.guard.ts:16 | pieces after the token are ignored |
| AuthGuard.ExtractTokenRefusesExamples | src/auth/guards/jwt-auth.guard.ts:14-17 | these all give `null`: a doubled space, a missing token, another scheme, an empty header and an absent header |
| AuthGuard.Authenticate | src/auth/guards/jwt-auth.guard.ts:20-31 | the missing-token exception exactly when no token is extracted; success exactly when the token verifies under the access secret, with `verifyAccessToken`'s payload; every failure carries one of the two messages |
| AuthGuard.JwtAuthGuard.CanActivate | src/auth/guards/jwt-auth.guard.ts:20-32 | never returns `false`; on success returns `true` and sets `req.user` to the verified payload; on failure throws the verdict's exception and leaves `req.user` unchanged |
| AuthGuard.MissingTokenSkipsVerifier | src/auth/guards/jwt-auth.guard.ts:22-23 | without a token the verdict does not depend on the JWT library |
| AuthGuard.VerdictReadsOnlyAccessSecret | src/auth/guards/jwt-auth.guard.ts:26 | configurations that agree on `JWT_ACCESS_SECRET` give the same verdict |
| AuthGuard.GuardAdmitsIssuedAccessToken | src/auth/guards/jwt-auth.guard.ts:26-28 | an issued access token sent as `Bearer <token>` is admitted, and the stored subject reads back as the user id |
| AuthGuard.GuardRejectsRefreshToken | src/auth/guards/jwt-auth.guard.ts:25-31 | an issued refresh token is refused when the secrets differ and the library rejects foreign tokens |
| Auth.VerificationCode | src/auth/auth.service.ts:18 | the code has six digits, no leading zero, and the value 100000 + the drawn offset |
| Auth.MessageCarriesCode | src/auth/auth.service.ts:39 | the code can be recovered from the SMS text |
| Auth.VerificationMessage | src/auth/auth.service.ts:39 | the SMS text is the fixed prefix, the code and the fixed suffix |
| Auth.FindMany | src/auth/auth.service.ts:20-28 | a row is returned exactly when it is in the table with that phone number and `gte <= createDate <= lte`; never more rows than the table holds |
| Auth.FindManyMultiplicity | src/auth/auth.service.ts:20-29 | each matching row is returned as often as the table holds it and no other row is returned, so the length compared with 10 is the number of matching rows |
| Auth.FindManyAppend | src/auth/auth.service.ts:52-58 | a new row joins a query's result exactly when it matches the query |
| Auth.FindFirstUser | src/auth/auth.service.ts:59-64 | finds a user exactly when some user has that phone number, and the user found has it |
| Auth.RateLimitWindow | src/auth/auth.service.ts:24-25 | the query bounds are local midnight and 23:59:59.000 of today, and neither is an Invalid Date |
| Auth.TodaysRequests | src/auth/auth.service.ts:19-28 | the counted rows are exactly that number's rows from the request's local day, up to 23:59:59.000 |
| Auth.DailyCapPreserved | src/auth/auth.service.ts:29-31 | if a successful production request's row is stamped on the checked day, no number exceeds ten rows in any day's window |
| Auth.DailyCapPreservedInOrder | src/auth/auth.service.ts:19-58 | on a clock that never runs backwards (stored rows no later than the check, the check no later than the new row), a successful production request keeps every number within ten rows in every day's window, even across midnight |
| Auth.DailyCapCanBeExceededAcrossMidnight | src/auth/auth.service.ts:19-56 | without the first ordering condition, with rows stamped after the check's own clock reading, a day's window can reach eleven rows |
| Auth.DailyCapCanBeExceededByEarlierStamp | src/auth/auth.service.ts:19-56 | without the second ordering condition, with the new row stamped on an earlier day than the check, that day's window can reach eleven rows |
| Auth.LastSecondRowsUncounted | src/auth/auth.service.ts:19-29 | rows created in the last 999 ms of their day are never counted by the rate-limit query |
| Auth.LastSecondRequestsUnlimited | src/auth/auth.service.ts:19-29 | any number of requests checked at 23:59:59.500 all pass the check, and the day then holds that many rows of the number |
| Auth.DailyCapExceededByInterleavedRequests | src/auth/auth.service.ts:20-58 | two requests that both count nine rows before either inserts both pass and leave eleven rows in the day |
| Auth.AligoGateway.Post | src/auth/auth.service.ts:33-46 | every posted request reaches the vendor's log, and the call throws exactly when the vendor fails |
| Auth.AuthService.constructor | src/auth/auth.service.ts:10-15 | `IS_DEV` holds exactly when `NODE_ENV` is `"develop"` (not for `"production"` or unset) |
| Auth.AuthService.FindTodaysRequests | src/auth/auth.service.ts:20-28 | the rate-limit query returns today's rows for the phone number |
| Auth.AuthService.SendVerificationCode | src/auth/auth.service.ts:17-65 | outside develop mode, at ten or more rows today, it throws BadRequest and changes nothing; otherwise it posts the message with the drawn code and `ALIGO_KEY`; it throws InternalServerError, adding no row, exactly when the post throws, and otherwise appends one row `(phone, code, Korean time)` and answers whether a user has that phone. BadRequest never occurs in develop mode; the SMS carries the stored code; history only grows; the window cap (at most ten rows in [00:00:00, 23:59:59.000] of any day) is kept when the clock does not run backwards or both readings fall on one day |

## Left out

- Auth.AuthService.SendVerificationCode: the daily window cap is proved for one request at a time, when stored rows are no later than the check and the check no later than the insert, or when both clock readings (lines 19 and 56) fall on one local day. Overshooting it needs concurrent requests or a clock that runs backwards (`Auth.DailyCapCanBeExceededAcrossMidnight`, `Auth.DailyCapCanBeExceededByEarlierStamp`).
- Auth.AuthService.SendVerificationCode: the count and the insert are not atomic in the source, and concurrent requests are not modelled as such; `Auth.DailyCapExceededByInterleavedRequests` shows the effect of two interleaved requests on the table.
- Auth.AuthService.SendVerificationCode: database failures in `findMany`, `create` and `findFirst` are not modelled. They propagate as unhandled errors.
- Auth.VerificationCode: `Math.random()` is a floating-point draw. The model takes the integer offset `floor(random * 900000)` directly, as a parameter in [0, 900000).
- Auth.AligoGateway.Post: the `multipart/form-data` encoding, the HTTP headers and the vendor's response body are not modelled. The source never inspects the response: a vendor answer with a failure `result_code` still counts as sent.
- `console.error` of the vendor error is I/O and is left out.
- DateUtils.CombineDateAndTime: JavaScript's `TimeClip` range (±8.64e15 ms) is not modelled, because instants are unbounded integers.
- DateUtils.CombineDateAndTime: the host time zone is a fixed offset `tz`. Daylight-saving changes within a day are not modelled.
- Strings.ParseNumber: only digit strings are modelled. Any other field is treated as `NaN`, although JavaScript's `Number` accepts some of them: surrounding whitespace, signs, decimals, exponents and hex. The core only parses the literals `"00:00:00"` and `"23:59:59"`.
- Strings.ToLower: only ASCII letters are lowered. No non-ASCII character lowers to a letter of `bearer`, so the scheme test is unaffected.
- The window's upper bound is 23:59:59.000, so a row created in the last 999 ms of a day is not counted (`DateUtils.InTodayWindow`). The source does this as written. The cap the model proves therefore bounds that window, not the whole day. A request checked in the last second of a day passes however many rows the number already has in that second (`Auth.LastSecondRequestsUnlimited`).
- JWT cryptography, expiry (`iat`/`exp`), and the library's own errors (such as `sign` throwing without a secret) are not modelled. They belong to the library, which the model treats as arbitrary functions plus stated hypotheses.
- Claims are a map from names to strings. Numeric claims such as `iat` and `exp` are not typed.
- AuthGuard.JwtAuthGuard.CanActivate: `verifyAsync` is modelled as the synchronous `verify`. The `ExecutionContext` is reduced to a request holding one optional `authorization` header. A header given as an array is not modelled.
- The controller wraps the service's `{ isUser }` response in another `{ isUser }` (`src/auth/auth.controller.ts:40-41`). Controllers are not part of this model, nor are `main.ts`, the Nest module and the request DTOs with their validation.
