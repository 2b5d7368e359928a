# FoodBridge backend: a Dafny model of the matching routine and its handlers

FoodBridge's backend (`server.js`) records recipients and foods, authenticates
users and, on `GET /ai-match`, pairs every food with the recipient a language
model rates most suitable. This project models:

- **The score parser** (module `ScoreParser`, `score.dfy`): the oracle's reply
  content, defaulted to `"0"` when missing or empty, has every character outside
  `[0-9]` removed and the rest read as a base-10 integer; an empty digit string
  (`parseInt` gives NaN) becomes 0 through `|| 0`.
- **The matching routine** `computeAIMatches` (module `Matching`,
  `matching.dfy`): a method with the same two nested loops, `bestScore` seeded
  with -1, a strict `>` comparison, failed oracle calls skipped, and the result
  grown one match at a time. The method is proved equal to the specification
  function `Matches`, and the lemmas beside it characterise that function: each
  food's match names the earliest recipient with the greatest successful score,
  a food is left out exactly when no call for it succeeded, there is at most one
  match per food and matches come out in food order.
- **Three handlers' decision logic** (module `Routes`, `routes.dfy`): the login
  outcome, the recipient-registration field check, and the `/ai-match` route
  with its empty-input guard.

The scoring oracle (the OpenAI chat call with its prompt) is a parameter: a
total function from (food index, recipient index) to `Fail` (the call threw) or
`Ok(content)`, where `content` is absent when the response has no first choice
or no message content. Database results are parameters too (`Query<T>`: the
rows, or a database error), and so is the bcrypt comparison
(`verify(password, digest)`).

Two behaviours worth noting:

- A failed oracle call does not count as score 0: it is caught and the
  recipient is skipped (`server.js:154-183`). A food for which every call
  failed gets no match at all.
- The score is not limited to 0..100. Digits that the reply separates by other
  text are run together, so `"Score: 42/100"` scores 42100
  (`ScoreParser.FractionRunsTogether`) and beats every well-formed reply. The
  model keeps this behaviour as written.

## Model

| member | source | states |
|---|---|---|
| `ScoreParser.StripNonDigits` | server.js:167 | the result of removing non-digits consists of digits only and is no longer than the text |
| `ScoreParser.StripConcat` | server.js:167 | removing non-digits from `a + b` gives the digits of `a` followed by the digits of `b`, so the digits keep their order |
| `ScoreParser.StripKeepsDigits` | server.js:167 | a string of digits is left unchanged |
| `ScoreParser.StripIdempotent` | server.js:167 | removing non-digits twice is the same as once |
| `ScoreParser.StripNoDigits` | server.js:167 | text without digits becomes empty |
| `ScoreParser.StripKeepsEveryDigit` | server.js:167 | every digit of the text appears in the stripped result |
| `ScoreParser.DigitOrigin` | server.js:167 | every character of the stripped result is a digit of the text |
| `ScoreParser.DigitsValue` | server.js:167 | the left-to-right base-10 reading of `d` digits is below 10^d |
| `ScoreParser.DigitsValueConcat` | server.js:167 | reading `a + b` gives value(a) * 10^len(b) + value(b) |
| `ScoreParser.DigitsValueIsPlaceValue` | server.js:167 | the left-to-right reading equals the sum of each digit times its place value |
| `ScoreParser.LeadingZero` | server.js:167 | a leading zero does not change the value |
| `ScoreParser.DigitsValueZero` | server.js:167 | the value is 0 exactly when every digit is '0' |
| `ScoreParser.DecimalRoundTrip` | server.js:167 | reading back the decimal numeral of `n` gives `n` |
| `ScoreParser.ScoreText` | server.js:164 | the defaulted reply text is never empty: a present non-empty content is kept, a missing or empty one becomes "0" |
| `ScoreParser.ParseScore` | server.js:164-167 | the score is the place value of the defaulted text's digit characters taken in order (0 when none remain) |
| `ScoreParser.MissingReplyScoresZero` | server.js:164-167 | a missing or empty reply content scores 0 |
| `ScoreParser.ParseScoreIsDigitValue` | server.js:164-167 | a present reply scores the place value of its digit characters taken in order (0 when there are none) |
| `ScoreParser.ParseScoreZero` | server.js:164-167 | a reply scores 0 exactly when all its digits are '0' or it has none |
| `ScoreParser.ParseNumberInText` | server.js:164-167 | a numeral surrounded by digit-free text scores that number |
| `ScoreParser.ParseNumeral` | server.js:164-167 | the reply "n" (a bare numeral) scores n |
| `ScoreParser.FractionRunsTogether` | server.js:167 | the reply "Score: 42/100" scores 42100 |
| `Matching.ScoreAt` | server.js:154-183 | a call yields a score exactly when it did not fail, and that score is the parse of its reply content |
| `Matching.ComputeMatches` | server.js:140-196 | the nested loops return exactly `Matches(foods, recipients, oracle)`; the inner loop keeps `bestScore` and `bestMatch` equal to the best candidate among the recipients scanned so far |
| `Matching.Best` | server.js:143-184 | a kept candidate is one of the scanned recipients and carries that recipient's own parsed score |
| `Matching.BestScoreSeed` | server.js:145 | `bestScore` never drops below its seed -1 and is at least 0 once a recipient has been kept |
| `Matching.BestNoneIffAllFail` | server.js:144-184 | no recipient is kept for a food exactly when every oracle call for it failed (or there were none) |
| `Matching.BestIsEarliestMax` | server.js:147-177 | the kept recipient's score is the maximum of the successful scores, and every earlier successful recipient scored strictly less |
| `Matching.EarliestMaxUnique` | server.js:170 | at most one recipient is the earliest one with the greatest score |
| `Matching.BestIff` | server.js:144-177 | the kept candidate is a given candidate if and only if that candidate is the earliest maximum |
| `Matching.FailedCallOnlyDropsItsRecipient` | server.js:154-183 | turning one call into a failure changes the choice only if that recipient was the one chosen: the scan goes on and nothing else is affected |
| `Matching.TieGoesToEarlier` | server.js:170 | when a later recipient ties an earlier successful one, the later one is never chosen |
| `Matching.FoodMatchedIff` | server.js:186-191 | a food is among the matched foods exactly when some recipient's call for it succeeded |
| `Matching.MatchesInFoodOrder` | server.js:141-143 | the result has one entry per matched food, at most as many as there are foods, and the matched foods are in strictly increasing food order |
| `Matching.MatchIsEarliestMax` | server.js:172-176 | each match copies its food's name, quantity and urgency and names a recipient that is the earliest with the greatest score for that food |
| `Matching.EmptyInputsGiveNoMatches` | server.js:143-147 | with no foods or no recipients the routine returns no matches |
| `Matching.MatchesEntry` | server.js:186-188 | entry k of the result is the match of the k-th matched food |
| `Matching.MatchedFoodsExactly` | server.js:186-191 | a food index is listed as matched exactly when that food has a kept recipient |
| `Routes.Login` | server.js:76-96 | a database error gives 500; no row gives 400 "User not found"; otherwise the first row's digest is compared, a mismatch gives exactly 400 "Invalid password", a match 200 "Welcome <username>!" |
| `Routes.LoginFailuresDistinct` | server.js:81-90 | between the two 400 outcomes, "User not found" means no row and "Invalid password" means a row whose digest did not match |
| `Routes.LoginUsesFirstRow` | server.js:85-86 | only the first row returned for the email decides the outcome |
| `Routes.RegisterRecipient` | server.js:100-115 | 400 "All fields are required" exactly when name, email, phone or address is absent or empty; 201 with the recipient's name exactly when all are present and the insert succeeds; 500 "Database error while registering recipient" otherwise |
| `Routes.RejectedRegistrationSkipsInsert` | server.js:102-104 | a rejected registration does not depend on the outcome of the insert |
| `Routes.AiMatch` | server.js:199-214 | 500 exactly when a table read fails; 400 exactly when foods or recipients is empty; the 200 body is the matching routine's result |

## Left out

- Express routing, CORS, JSON parsing, static file serving and the server start (`server.js:10-17`, `220-222`): framework I/O.
- The Postgres pool and its SQL text (`server.js:20-27`): query results are inputs to the model (`Routes.Query`).
- Signup (`server.js:57-70`): a bcrypt hash followed by one INSERT; nothing but foreign calls.
- `POST /pay` (`server.js:40-54`): one call to the payment provider. Its second registration (`server.js:229-246`) is a duplicate that Express never reaches, since the first handler for the path answers.
- `GET /foods` and `GET /recipients` (`server.js:118-137`): they return the table rows unchanged.
- bcrypt: the comparison is the parameter `verify`; a comparison that throws (which would give 500) is not modelled.
- The OpenAI client and the prompt text (`server.js:37`, `148-160`): the oracle is indexed by food and recipient position, so the model does not capture that two identical rows produce identical prompts.
- ScoreParser.ParseScore: scores are unbounded naturals; JavaScript's `parseInt` loses precision above 2^53 and returns Infinity for digit strings of more than about 309 digits.
- Reply content that is present but not a string (calling `replace` on it throws and the call is skipped): a caller of the model expresses that as a `Fail` reply.
- Routes.Present: request fields are absent or strings; the JavaScript falsiness of other JSON values (0, false) is not modelled.
- Food rows: only the name, quantity and urgency columns are modelled, so a match's food is the whole row here; with further columns the source copies just these three.
- `async`/`await` suspension and all `console` logging: the routine runs sequentially and logging does not affect results.
