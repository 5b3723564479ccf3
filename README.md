# Gym membership registry, modelled in Dafny

The service keeps its gym memberships in one in-memory, insertion-ordered
table. Each record holds `name`, `email`, `startDate` and `isActive`. The
table starts empty and is never persisted. Five HTTP handlers act on it:

- register (POST /register);
- view one record by email (GET /members/:email);
- list the active records (GET /members);
- cancel (DELETE /members/:email);
- change the start date (PUT /members/:email).

Lookups scan the table for the first record whose email is exactly equal.
Cancelling is a soft flag: a record is never removed.

The project has three modules:

- `Members` (members.dfy): the record type, and request fields as `Field` (absent, or a string). It also holds the read-only queries over the table: `FindIndex` / `FindMemberByEmail` (the `find`) and `Active` (the `filter`). Beside them are the reference notions they are proved against: `EmailTaken`, `FirstWith`, `UniqueEmails` and `ActiveIndices`.
- `Handlers` (handlers.dfy): each handler as a function from the table before a request to an `Outcome`, which is the response (status code, message, record) plus the table after the request. It also has one `Request` per route, `Handle` to route a request, and `Replay` to serve a sequence of requests. The lemmas here span several requests: email uniqueness is invariant, the table only evolves (records are never removed, name and email are never rewritten, `isActive` only goes from true to false), failed requests change nothing, cancel and start-date updates are idempotent, and register-then-view gives back the new record. The requests of the project's test suite are stated one by one with their expected responses.
- `Store` (store.dfy): the table as a class `MemberStore` with a `seq<Member>` field. Register, cancel and update-start-date are methods that modify it in place. View and list-active only read it. Each method's postcondition equates its response and new state with the function of the same name in `Handlers`. `Valid()` (unique emails) is kept by every method. Each method body is the in-place implementation: it appends to the table or replaces the one matched element. The `Handlers` function it is proved against is the functional specification, and that is where the multi-request lemmas live. So the branch structure of each handler appears twice, once per role.

A field counts as missing, as in the handlers' `!field` tests, when it is absent or is the empty string.

## Model

| member | source | states |
|---|---|---|
| Members.FindIndex | index.js:11-12 | no position is returned exactly when no record has the email; otherwise the position returned holds the first record, in insertion order, whose email is exactly equal |
| Members.FindMemberByEmail | index.js:11-12 | no record is returned exactly when none has the email; otherwise the record returned is the first stored one with that exact email |
| Members.Active | index.js:57 | the filter's result is never longer than the table; what it keeps, and in what order, is stated by `Members.ActiveExact` and `Members.ActiveInOrder` |
| Members.ActiveExact | index.js:57 | every record the filter keeps is active and stored, and every active stored record is kept |
| Members.ActiveIndices | index.js:57 | the active positions form a strictly increasing list of in-range positions |
| Members.ActiveIndicesExact | index.js:57 | every listed position is active, and every active position is listed |
| Members.ActiveInOrder | index.js:57 | the k-th listed record is the record at the k-th active position, so the list keeps insertion order and holds nothing else |
| Members.ActiveAppend | index.js:32-33 | appending a record grows the active list by that record if it is active, and leaves the list as it was otherwise |
| Members.UniqueLookup | index.js:11-12 | when emails are unique, a lookup by a stored record's email finds exactly that record |
| Handlers.Register | index.js:15-39 | a missing name, email or start date gives 400 "Name, email, and start date are required." and leaves the table unchanged, even if the email is taken; a taken email, active or cancelled, gives 400 "Membership already exists for this email." and leaves the table unchanged; 201 happens exactly when all fields are given and the email is new, and then one active record `{name, email, startDate}` is appended, earlier records are unchanged, and that record is returned |
| Handlers.View | index.js:42-53 | an unknown email gives 404 "No membership found for this email."; otherwise the response is 200 with the first matching record as stored |
| Handlers.ListActive | index.js:56-60 | always 200, never an error; the response lists only stored active records and every active one |
| Handlers.Cancel | index.js:63-79 | an unknown email gives 404 and leaves the table unchanged; otherwise the length is kept, only the matched record changes and only its `isActive` becomes false, and the response is 200 with the updated record |
| Handlers.UpdateStartDate | index.js:82-103 | a missing new start date gives 400 "New start date is required." before any lookup, so also for an unknown email; otherwise an unknown email gives 404 with the table unchanged; on success only the matched record's `startDate` changes, and the response is 200 with the updated record |
| Handlers.HandleEvolves | index.js:14-103 | no handler removes or reorders a record, rewrites a name or email, or reactivates a cancelled record |
| Handlers.ErrorsChangeNothing | index.js:19-95 | every 400 or 404 response, from any handler, leaves the table unchanged |
| Handlers.RegisteredActive | index.js:32-33 | a newly registered record is active and goes to the end of the active list |
| Handlers.RegisterKeepsUnique | index.js:25-33 | registration keeps emails unique |
| Handlers.HandleKeepsUnique | index.js:25-97 | every handler keeps emails unique, because only registration adds a record and no handler writes `email` |
| Handlers.Replay | index.js:14-103 | serving a sequence of requests gives one response per request and never shrinks the table |
| Handlers.ReplayKeepsUnique | index.js:14-103 | any sequence of requests keeps email uniqueness |
| Handlers.ReplayEvolves | index.js:14-103 | over any sequence of requests, records are never removed, names and emails never change, and `isActive` only goes from true to false |
| Handlers.FromEmptyUnique | index.js:8 | starting from the empty table, no two records ever share an email |
| Handlers.CancelIdempotent | index.js:66-78 | cancelling twice gives the same response and table as cancelling once |
| Handlers.UpdateStartDateIdempotent | index.js:86-102 | setting the same start date twice gives the same response and table as setting it once |
| Handlers.RegisterThenView | index.js:32-52 | after a successful registration, viewing that email gives 200 with exactly the registered record, which is active |
| Handlers.ReregisterRejected | index.js:25-29 | once an email has been registered, a later registration of it, after any sequence of requests (cancellations included), is rejected with 400: "Membership already exists for this email." when name and start date are given |
| Handlers.CancelDeactivates | index.js:57-73 | with unique emails, after a cancel no active record carries the cancelled email |
| Handlers.TestSuiteFirstSteps | __tests__/index.test.js:20-73 | register gives 201 with the active record, view gives it back with 200, the list contains it, and the start-date change gives 200 with "2024-12-01" |
| Handlers.TestSuiteLastSteps | __tests__/index.test.js:76-120 | cancel gives 200 with `isActive` false; an unknown email gives 404; a missing field gives 400 "Name, email, and start date are required."; a repeated email gives 400 "Membership already exists for this email." |
| Handlers.TestSuiteAfterCancel | __tests__/index.test.js:85-120 | the last four requests of the test suite answer 404, 400, 400, 400 and leave the one cancelled record |
| Handlers.TestSuiteAfterRegister | __tests__/index.test.js:38-120 | the requests of the test suite after the registration (view, list, change the start date, cancel, unknown lookup, missing field, two repeats), served from the table holding the new record, give exactly the expected responses and leave the one cancelled record; a step of `Handlers.TestSuiteScenario` |
| Handlers.TestSuiteScenario | __tests__/index.test.js:16-121 | the nine requests of the test suite, served in order from the empty table, give exactly the expected responses and leave one cancelled record with start date "2024-12-01" |
| Store.MemberStore.constructor | index.js:8 | the table starts empty, so emails are trivially unique |
| Store.MemberStore.Register | index.js:15-39 | the response and new table are those of `Handlers.Register`; a 400 leaves the table as it was; a 201 pushes exactly the returned active record; emails stay unique |
| Store.MemberStore.View | index.js:42-53 | the response is that of `Handlers.View`; it is 200 exactly when the email is stored, and then carries the stored record with that email |
| Store.MemberStore.ListActive | index.js:56-60 | the response is that of `Handlers.ListActive`: always 200; every listed record is active and stored, and every active stored record is listed; the k-th listed record is the one at the k-th active position, so insertion order is kept |
| Store.MemberStore.Cancel | index.js:63-79 | the response and new table are those of `Handlers.Cancel`; the length is kept, a 404 changes nothing, and emails stay unique |
| Store.MemberStore.UpdateStartDate | index.js:82-103 | the response and new table are those of `Handlers.UpdateStartDate`; the length is kept, a 400 or 404 changes nothing, and emails stay unique |

## Left out

- Express setup, JSON body parsing and route/parameter extraction (index.js:2-5, 16, 43, 83-84): routing is plumbing. `Request` and `Handle` stand in for it. A route parameter is always present, so it is modelled as a plain string.
- `app.listen`, the port, the `NODE_ENV` check and the start-up log line (index.js:105-110): process and network I/O.
- Full JavaScript truthiness: a field is either absent or a string, and "missing" means absent or empty. Non-string values such as `0`, `false` or `null`, and their storage in a record, are not modelled.
- JSON serialisation: a response is its status code, message and record or records. The exact body shapes are not modelled.
- Object identity: the handlers change the found record through the shared reference that `find` returns. The model finds its position instead and replaces the element at that position. This has the same effect on the table. Aliasing between a response and the stored record is not modelled, since a response is serialised at once.
- The test file's own machinery (supertest, `beforeAll`/`afterAll`, the live server): only its expected results are used, as the test scenario lemmas.
