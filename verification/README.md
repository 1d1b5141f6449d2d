# IOTIQ account-deletion mail route, modelled in Dafny

The IOTIQ support backend has one route with logic in it: `POST /send-email`.
The request body carries a `contact` value, which is an email address or a phone
number. The route rejects a missing or empty contact with 400. Otherwise it builds
an admin notice addressed to `ADMIN_EMAIL` that quotes the contact. When the
contact is email-shaped, it also builds a confirmation addressed to the contact.
It sends every message it built, and answers 200 when every send succeeded and
500 otherwise.

The project has two modules:

- `EmailShape` (`email_shape.dfy`) models the classifier `/^[^\s@]+@[^\s@]+\.[^\s@]+$/`.
  It is defined three ways, and they are proved to agree on every string:
  - `MatchesPattern`: the language of the regular expression, as a split L + "@" + D1 + "." + D2.
  - `SimpleShape`: no whitespace, exactly one '@', a non-empty local part, and a '.' that is neither the first nor the last character of the domain.
  - `Scan`: a single left-to-right scan with loop invariants.

  `\s` is JavaScript's whitespace class: the ECMAScript WhiteSpace and LineTerminator code points.
- `SendEmail` (`send_email.dfy`) models the route as pure functions:
  - `PlanFor`: the validation and message construction.
  - `JoinAll`: the `Promise.all` join.
  - `Respond`: the mapping from send outcomes to the HTTP response.
  - `Handle`: the whole route.
  - `SentOver`: a series of requests.

  The mail transport is an oracle parameter `transport: MailOptions -> SendResult`.
  The environment is a `Config` whose `EMAIL_USER` and `ADMIN_EMAIL` entries may be unset.

Behaviour of the code that a reader might not expect, kept as written:

- The empty-contact check is JavaScript truthiness only; nothing is trimmed. So `" "` is accepted, classified as not an email, and only the admin notice is sent (`WhitespaceContactNotTrimmed`).
- The configuration is never checked. An unset `EMAIL_USER` or `ADMIN_EMAIL` flows into `from`/`to` as `undefined`, which is `None` here.
- Every send failure, whatever its kind, is answered with the same 500 `{error: "Failed to send email"}`; no failure is classified.
- The 200 body does not say how many messages were sent.

The contact is interpolated into the admin notice's HTML unescaped. The model keeps this behaviour: `AdminNotice` states that the raw contact appears verbatim at a fixed offset.

## Model

| member | source | states |
|---|---|---|
| EmailShape.IsEmail | backend/routes/email.js:53 | the classifier the route calls returns true exactly for strings in the language of `/^[^\s@]+@[^\s@]+\.[^\s@]+$/` |
| EmailShape.Compose | backend/routes/email.js:53 | any non-empty local part, first domain part and last domain part made of non-whitespace, non-'@' characters, joined as L@D1.D2, match the pattern |
| EmailShape.Decompose | backend/routes/email.js:53 | every split the pattern accepts puts the string back together as local part + "@" + D1 + "." + D2, with all three parts non-empty |
| EmailShape.SplitPointwise | backend/routes/email.js:53 | a split holds iff the '@' is at `at`, a '.' is at `dot` with at least one character on each side of each, and every other character is neither whitespace nor '@' |
| EmailShape.ShapeIff | backend/routes/email.js:53 | the pattern matches iff the string has no whitespace, exactly one '@', a non-empty part before it, and a '.' after it that is neither the first nor the last character of the domain |
| EmailShape.Scan | backend/routes/email.js:53 | a single left-to-right scan answers true exactly when the pattern matches |
| EmailShape.MinimalAccepted | backend/routes/email.js:53 | "a@b.c" is email-shaped |
| EmailShape.UserAccepted | backend/routes/email.js:53 | "user@example.com" is email-shaped |
| EmailShape.AliceAccepted | backend/routes/email.js:53 | "alice@example.com" is email-shaped |
| EmailShape.NoLocalPart | backend/routes/email.js:53 | "@missing-local.com" is not email-shaped, because the local part is empty |
| EmailShape.NoAtRejected | backend/routes/email.js:53 | a string without '@' is never email-shaped |
| EmailShape.PhoneNumberRejected | backend/routes/email.js:53 | "555-1234" is not email-shaped |
| EmailShape.InternationalNumberRejected | backend/routes/email.js:53 | "+1-555-0100" is not email-shaped |
| EmailShape.PlainWordRejected | backend/routes/email.js:53 | "not-an-email" is not email-shaped |
| SendEmail.AdminNotice | backend/routes/email.js:32-50 | the admin notice is from EMAIL_USER to ADMIN_EMAIL with the admin subject; its HTML is the fixed heading, then the raw contact verbatim and unescaped, then the fixed footer |
| SendEmail.UserConfirmation | backend/routes/email.js:56-76 | the confirmation is from EMAIL_USER to the contact itself, with the confirmation subject and a body that does not depend on the contact |
| SendEmail.PlanFor | backend/routes/email.js:25-86 | a falsy contact is rejected with 400 "Contact information is required" and builds nothing; otherwise there are two messages for an email-shaped contact and one otherwise; the first always goes to ADMIN_EMAIL with the admin subject and quotes the contact; the second goes to the contact with the confirmation subject; all are from EMAIL_USER |
| SendEmail.JoinAll | backend/routes/email.js:79-82 | the join of the send outcomes is fulfilled iff every send is delivered, and otherwise fails with one of the sends' failures |
| SendEmail.Respond | backend/routes/email.js:88-92 | the response is 200 "Email sent successfully" iff every send succeeded, and otherwise 500 "Failed to send email" whatever the failure |
| SendEmail.RespondIgnoresOrder | backend/routes/email.js:79-92 | the response does not depend on the order in which the sends settle |
| SendEmail.Handle | backend/routes/email.js:23-94 | the status is 400 exactly when the contact is falsy, and then nothing is sent; otherwise every planned message is handed to the transport, the answer is 200 "Email sent successfully" iff all were delivered, and otherwise exactly 500 "Failed to send email" |
| SendEmail.WhitespaceContactNotTrimmed | backend/routes/email.js:27-86 | a whitespace-only contact is accepted and sends exactly the admin notice |
| SendEmail.EmailContactSendsTwo | backend/routes/email.js:53-88 | an email-shaped contact hands both the admin notice and the confirmation to the transport whatever their outcomes; the answer is 200 iff both are delivered and 500 "Failed to send email" if either failed |
| SendEmail.OtherContactSendsOne | backend/routes/email.js:83-92 | any other truthy contact hands only the admin notice to the transport, and its outcome alone decides the response: 200 when delivered, 500 "Failed to send email" when it failed |
| SendEmail.MissingContactScenario | backend/routes/email.js:25-29 | a missing or empty contact answers 400 and sends nothing, whatever the transport would do |
| SendEmail.SentOverConcat | backend/routes/email.js:23-94 | the route keeps no state: a series of requests sends what its parts send, so a repeated request sends its messages again |
| SendEmail.RepeatedRequestNotifiesTwice | backend/routes/email.js:23-94 | the same truthy contact sent twice produces its messages twice and two admin notices; nothing is deduplicated |
| SendEmail.OneAdminNoticePerRequest | backend/routes/email.js:31-86 | over any series of requests, the number of admin notices sent equals the number of requests with a truthy contact |

## Left out

- Transport construction and the startup `verify` ping (backend/routes/email.js:6-21). They are calls into the mail library plus logging; the transport is the `transport` parameter instead.
- backend/server.js: middleware, CORS, request logging, static files, the diagnostic route, the error and 404 handlers, and `listen`. These are plumbing with no decisions in them.
- The concurrency of `Promise.all`. Both sends are modelled as attempted, and the result is the conjunction of their outcomes. `JoinAll` reports the failure with the lowest index, where `Promise.all` reports the one that settled first. The response does not depend on which it is (`RespondIgnoresOrder`, `Respond`).
- Logging of the caught error (line 91).
- JavaScript coercion of non-string `contact` values (numbers, booleans, objects). The contact is `Option<string>`: `None` stands for a missing, `undefined` or `null` field.
- A missing request body. Destructuring `undefined` at line 25 throws and the route answers 500. Under Express 4 with the JSON parser of body-parser 1.x, `req.body` is always an object, so this cannot happen. Under Express 5 `req.body` stays `undefined` when no body is parsed, and the model does not cover that 500.
- The HTML styling. The bodies keep their text and structure without the inline CSS and whitespace. The contact is interpolated at the same place.
- String encoding. JavaScript strings are UTF-16 code units and Dafny `char`s are Unicode scalar values. This does not change the classifier, because no surrogate half is whitespace or '@'.
