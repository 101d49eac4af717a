# Exercise tracker — request handling over an abstract store

This project models the four route handlers of the exercise-tracker
service (`index.js`) as pure functions from a store and the request's
inputs to a response and a new store:

- `Users.CreateUser` — `POST /api/users`: a falsy username is a 400; a
  username the unique index already holds is a 500 (the duplicate-key
  error passed through); otherwise the user is saved and its username and
  new id are echoed.
- `Users.ListUsers` — `GET /api/users`: every user, id and username only.
- `Exercises.AppendExercise` — `POST /api/users/:_id/exercises`: a falsy
  description or duration is a 400; otherwise the exercise is saved FIRST
  (its date defaulting to the current time) and the user is looked up
  afterwards, so an unknown user yields a 404 with the exercise already
  stored.
- `Logs.GetLog` — `GET /api/users/:_id/logs`: an unknown user is a 404;
  otherwise the query `{userId, date: {$gte: from, $lte: to}}` is run with
  limit `Number(limit) || 0` (0 meaning no cap) and the response carries
  `count` equal to the length of the returned log.

The store (`Records.Store`) is the two document collections as sequences in
insertion order plus the next identifier the store will hand out; the
model takes that order to be the order in which the store returns
documents (see below). Dates are integer timestamps (milliseconds since the epoch). The
current time that `Date.now` would read is a parameter (`now`) of
`AppendExercise`. `Records.Valid` is the store's invariant: the username
index is unique and identifiers are fresh and never reused.

Modules: `Optional` (optional request fields), `Records` (users,
exercises, store, `findById`), `Responses` (status codes, messages,
response payloads), `Users`, `Exercises`, `Logs` (one per handler group),
`Scenarios` (properties that span several requests).

Request fields are modelled by their truthiness, as the handlers test
them: `None` is a missing field, `Some("")` an empty string, a duration of
`Some(0)` is falsy, and a `date`, `from` or `to` of `Some(t)` is a
non-empty string that parsed to the timestamp `t`. The `limit` parameter
is `Omitted`, `NotANumber` or `Number(n)` with `n >= 0`.

The model follows the code: `limit=0` means no cap (the `|| 0`
coercion); a malformed `:_id` or an unparseable date makes the driver
throw (a 500) — these inputs are outside the model (see below).

## Model

| member | source | states |
|---|---|---|
| Records.FindUser | index.js:83-84 | the lookup yields a stored user with the requested id, and yields nothing exactly when no stored user has that id |
| Records.FindStoredUser | index.js:106-107 | with unique ids, looking up any stored user's id finds that very user |
| Users.CreateUser | index.js:35-49 | falsy username gives 400 and writes nothing; a taken username gives 500 and writes nothing; it errs exactly in those two cases; otherwise the reply is a creation and exactly one user is appended, the others are untouched, exercises are untouched and the reply echoes the username and the freshly assigned id |
| Users.ListUsers | index.js:52-59 | lists every stored user with its id and username in insertion order, one entry per user, and writes nothing |
| Users.OccurrencesTaken | index.js:21 | a username occurs in the collection exactly when the unique index reports it taken |
| Users.UniqueOccursAtMostOnce | index.js:21 | under the unique index no username occurs more than once |
| Users.CreateUserRegistersOnce | index.js:42-45 | after a successful registration the username occurs exactly once and the returned id resolves to the new user |
| Users.CreateUserPreservesValid | index.js:20-23 | registration keeps the unique index and the fresh-identifier discipline |
| Users.CreateTwiceFails | index.js:42-48 | registering the same username a second time is a 500 that writes nothing |
| Users.CreateThenList | index.js:52-55 | after a registration the user listing contains the new username exactly once |
| Exercises.AppendExercise | index.js:62-98 | falsy description or duration gives 400 and persists nothing; otherwise exactly one exercise is appended with the given user id, description, duration and the supplied date or else `now`; the reply is either the added-exercise payload or an error; for a well-formed request it is exactly the 404 "user not found" when the user is missing, and otherwise carries the user's username, the stored fields and the path id |
| Exercises.AppendPreservesValid | index.js:26-32 | an append keeps the store invariant whether or not the user exists |
| Exercises.OrphanOnUnknownUser | index.js:75-86 | for an unknown user a well-formed append answers 404 yet leaves a new exercise owned by that nonexistent user in the store |
| Logs.EffectiveLimit | index.js:116 | the effective cap is 0 exactly when the limit is missing, non-numeric or zero, and is the given number otherwise |
| Logs.Find | index.js:111-115 | every returned exercise is stored, belongs to the user and lies within the given bounds; every stored exercise that does is returned |
| Logs.Limit | index.js:116 | the result is a prefix of the input; 0 returns everything; n > 0 returns min(n, length) elements |
| Logs.GetLog | index.js:101-132 | never writes; 404 exactly when the user is missing; otherwise count equals the log's length, the id is the path id, the username is the user's, and every entry comes from a stored exercise of that user within the bounds |
| Logs.FindConcat | index.js:115 | the query result over a concatenated collection is the results over each part, in order |
| Logs.RunQuery | index.js:115-117 | a scan that stops after n matches returns exactly the capped query result |
| Logs.ScanStopped | index.js:115-117 | once the scan has covered the whole collection or holds n matches, what it holds is the capped query result |
| Logs.LimitSemantics | index.js:115-121 | with no effective cap the log is all matching exercises; with cap n > 0 it is the first min(n, m) of the m matching ones and count is that number |
| Logs.UnboundedLogIsComplete | index.js:111-117 | with no bounds and no cap every exercise of the user appears in the log |
| Logs.CoveringRangeFindsAll | index.js:112-113 | an inclusive range covering all the user's exercise dates selects the same exercises as no range |
| Scenarios.AppendThenLog | index.js:111-127 | after appending for an existing user, the uncapped log gains exactly that entry at the end when its date is in range and is unchanged otherwise |
| Scenarios.CoveringRangeReturnsAll | index.js:111-121 | querying from the earliest to the latest date of the user's exercises gives the same response as an unbounded query |
| Scenarios.AliceWalkThrough | index.js:119-128 | registering alice, logging an undated 30-minute run and reading the log gives count 1 with that run dated now |

## Left out

- Transport: Express setup, CORS, body parsing, static files, the index page, environment loading, the database connection and the listener are not modelled; handlers are pure functions.
- `toDateString()` rendering: responses carry the stored timestamp instead of the locale- and timezone-dependent date string.
- Store failures other than the duplicate username (connectivity, timeouts) are not modelled; the duplicate-key 500 carries a fixed message standing in for the driver's text.
- Malformed ids, unparseable `date`/`from`/`to` and their casting errors are outside the model: ids are well-formed naturals and dates valid integer timestamps.
- Negative and fractional `limit` values are not modelled: the driver's meaning for them is not visible in this code.
- `duration` beyond truthiness: strings, fractional values and NaN are not modelled; it is an integer whose only check is being non-zero.
- A `date` of the number 0 sent in a JSON body is falsy in the handler and would default to now; the model's `Some(t)` always stands for a truthy date.
- The `__v` version field and its exclusion by the listing projection are not modelled.
- Retrieval order: neither query sorts, and the document store promises no order without a sort, so `.limit(n)` may return any `n` matches and the listing any order; the model fixes the retrieval order to insertion order, which `Logs.LimitSemantics`, `Logs.RunQuery` and `Users.ListUsers` rely on.
- Concurrency between requests and store atomicity: each handler is a single sequential step.
- Identifier generation: ObjectIds are modelled by a counter in the store, so the exact id values are a modelling choice.
