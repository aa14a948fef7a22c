# Problem-statement selection: a Dafny model

This project models the core of a small event-registration backend (Express and
Mongoose). Teams sign in and each team binds itself to one problem statement.
Every problem statement takes only a limited number of teams.

The core is the `POST /api/problems/select` handler. It runs a fixed series of
checks, and any failing check aborts the MongoDB transaction with no effect. On
success it commits three writes together:

- the team's `_id` is pushed onto the problem's `selectedBy`;
- the team's `selectedProblem` and `selectionTime` are set;
- an `active` Selection ledger entry is inserted.

The model has these parts:

- `ProblemModel`, `TeamModel` and `SelectionModel` hold the three Mongoose
  schemas. These are the records, their enums and defaults, the
  `slotsAvailable` virtual, the `isAvailable` method, the unique indexes and
  the team's password hook.
- `ProblemRoutes` holds the store as a value (`State`) and its cross-record
  `Invariant`. It also holds the handler's checks (`Validate`), its three
  writes (`Commit`), the whole call as one atomic step (`Transition`) and the
  availability query.
- `ProblemRoutes.ProblemStore` is a class with the three collections as fields.
  Its `Select` method performs the handler step by step. It undoes its
  earlier writes when the ledger insert is refused, and it is proved equal to
  `Transition`.
- `SelectionProperties` proves what the handler promises. It covers each error
  path in order, the exact effect of a success and the invariant over any
  sequence of calls. It also covers fixed sequences of atomic calls: three
  teams one after another for a two-slot problem, one team asking for two
  problems in turn, a request repeated after its success, and the last slot.

The store invariant (`ProblemRoutes.Invariant`) states:

- the unique indexes hold: `teamId`, `problemId`, and at most one active
  ledger entry per team;
- every team has `selectedProblem` null exactly when `selectionTime` is null;
- every problem is within capacity and lists each team at most once;
- a selected team is listed by its problem and has an active ledger entry for
  it;
- every listed team, and every active ledger entry whose team still exists,
  points back to a team that selected that problem. Re-seeding deletes teams
  and problems but keeps the ledger, so entries of deleted teams are left
  unconstrained.

Where the code's behaviour may be unexpected, the model follows the code:

- The handler never checks the team's `isActive` flag.
- When `Team.findOne` finds no team, the code dereferences `null`. The catch
  block answers 500, not 404 (`ServerError`).
- An inactive or full problem is answered with 400 (`NoLongerAvailable`), not
  404. The answer is 404 only when no problem has the id.
- An identity mismatch is answered with 403.
- `maxTeams` has no lower bound in the schema. So the capacity invariant reads
  "`|selectedBy| <= maxTeams`, or `selectedBy` is empty".

`Select` and `Transition` require only the unique `teamId` index. The store
enforces that index in every state, and it makes `Team.findOne` deterministic.
They do not require the cross-record invariant, so the duplicate-key path
(code 11000, answered with 400) stays reachable in a store whose records
disagree.

Inputs from outside the store are parameters:

- the authenticated team's `teamId`, which the auth middleware produces;
- the clock reading `now`, which stands for `new Date()`;
- bcrypt's `hash` function and the salt.

## Model

| member | source | states |
|---|---|---|
| ProblemModel.ParseCategory | backend/models/Problem.js:25-29 | the category enum validator accepts a string exactly when it is the stored name of a category, and returns that category |
| ProblemModel.ParseDifficulty | backend/models/Problem.js:30-34 | the difficulty enum validator accepts exactly the three difficulty names |
| ProblemModel.IsAvailable | backend/models/Problem.js:55-63 | a problem is available iff it has a free slot (`slotsAvailable > 0`) and is active; an inactive problem is never available, whatever its count |
| ProblemModel.SlotsAvailable | backend/models/Problem.js:56-58 | the free-slot count is positive exactly when the list is shorter than `maxTeams`, is zero only when the list is exactly full, and never exceeds `maxTeams` |
| ProblemModel.NewProblem | backend/models/Problem.js:5-46 | a new problem keeps the given fields, starts with an empty `selectedBy`, two free slots, and is available |
| TeamModel.NewTeam | backend/models/Team.js:5-48 | a new team keeps the given fields, is unselected (both selection fields null, so they agree) and is active |
| TeamModel.PreSave | backend/models/Team.js:54-62 | a save that did not modify the password leaves the record unchanged; otherwise the password becomes hash(password, salt) and nothing else changes |
| TeamModel.FindTeam | backend/routes/problems.js:98 | `findOne({ teamId })` yields a team with that `teamId`, or none exactly when no team has it |
| TeamModel.FindTeamUnique | backend/models/Team.js:7-10 | under the unique index, a lookup by `teamId` finds the one team holding it, and no two teams hold it |
| SelectionModel.ParseStatus | backend/models/Selection.js:20-24 | the status enum validator accepts exactly "active" and "cancelled" |
| SelectionModel.NewSelection | backend/models/Selection.js:5-24 | a new ledger entry references the given team and problem, carries the given time, and has status `active` by default |
| SelectionModel.Insert | backend/models/Selection.js:29-30 | the store refuses an entry iff it is active and the team already has an active entry; it accepts cancelled entries without limit, and an accepted insert keeps at most one active entry per team |
| ProblemRoutes.StatusCode | backend/routes/problems.js:78-169 | the status each error is answered with: 403 exactly for the identity mismatch, 404 exactly for an unknown problem, 500 exactly for the caught crash, and 400 for the missing field, the already-selected team, the unavailable problem and the duplicate key |
| ProblemRoutes.Validate | backend/routes/problems.js:77-124 | the checks succeed iff both fields are present, the caller is the named team, that team exists with no problem, and the problem exists and is available; a success names that team and problem |
| ProblemRoutes.Commit | backend/routes/problems.js:126-144 | the success writes: the team is appended to the problem's list, the team records the problem and `now`, one active entry is appended, and no other team or problem changes |
| ProblemRoutes.Transition | backend/routes/problems.js:67-174 | every failure leaves the store unchanged; no call adds or removes a team or problem key, or breaks the unique `teamId` index |
| ProblemRoutes.Availability | backend/routes/problems.js:179-210 | 404 iff no problem has the id; otherwise the free slots plus the count equal `maxTeams`, and the problem is reported available iff a slot is free and it is active |
| ProblemRoutes.ProblemStore.Select | backend/routes/problems.js:67-174 | the handler run step by step on the store (with the undo on a refused insert) ends in the state and answer of `Transition`; a failure changes nothing and the invariant is kept |
| ProblemRoutes.ProblemStore.constructor | backend/seed.js:159-168 | a store seeded with unselected teams, empty problem lists, unique ids and an empty ledger satisfies `Valid()` |
| ProblemRoutes.CommitPreservesInvariant | backend/routes/problems.js:118-141 | committing the three writes for an unselected team, an available problem and a team with no active ledger entry keeps the capacity bound, the no-duplicate lists, at most one active entry per team and the team/problem/ledger agreement |
| SelectionProperties.MissingFieldRejected | backend/routes/problems.js:67-84 | a missing `problemId` is reported first, then a missing `teamId`; both are 400 and change nothing |
| SelectionProperties.IdentityMismatchForbidden | backend/routes/problems.js:89-95 | a caller acting for another `teamId` gets 403 and the store is unchanged |
| SelectionProperties.MissingTeamServerError | backend/routes/problems.js:98-169 | when no team has the requested `teamId`, the answer is 500 and the store is unchanged |
| SelectionProperties.AlreadySelectedRejected | backend/routes/problems.js:98-105 | a team that already has a problem gets 400 and the store is unchanged, whether or not the team is active |
| SelectionProperties.UnknownProblemNotFound | backend/routes/problems.js:108-115 | an unknown problem id gets 404 and the store is unchanged |
| SelectionProperties.UnavailableProblemRejected | backend/routes/problems.js:118-124 | a full or inactive problem gets 400 (not 404) and the store is unchanged |
| SelectionProperties.DuplicateLedgerEntryRejected | backend/routes/problems.js:135-165 | when all checks pass but the team already has an active ledger entry, the duplicate key aborts the transaction: 400, and the earlier writes are undone |
| SelectionProperties.DuplicateUnreachable | backend/routes/problems.js:97-165 | in a store that keeps the invariant, the duplicate-key answer never occurs |
| SelectionProperties.SelectSucceeds | backend/routes/problems.js:126-154 | when all checks pass and the ledger accepts the entry, the answer is the problem's id, title and `now`. The three writes are exactly the appended team, the team's two fields and one active entry (team, problem, now), and nothing else changes |
| SelectionProperties.SuccessIff | backend/routes/problems.js:77-141 | under the invariant, a call succeeds iff the request is well formed, names the caller, the team exists unselected, and the problem exists and is available |
| SelectionProperties.TransitionPreservesInvariant | backend/routes/problems.js:67-174 | every call, successful or not, keeps the store invariant (a failure changes nothing; a success is a commit that meets the hypotheses of `CommitPreservesInvariant`) |
| SelectionProperties.SelectionIsFinal | backend/routes/problems.js:98-105 | a team that has a problem keeps its record through any call |
| SelectionProperties.SelectedByOnlyGrows | backend/routes/problems.js:126-128 | no call removes a team from a problem's list; the list grows by at most one |
| SelectionProperties.RetryAfterSuccess | backend/routes/problems.js:98-105 | repeating a successful request is refused as already selected and changes nothing |
| SelectionProperties.SeededStoreValid | backend/models/Team.js:36-48 | records as created by the schemas' defaults (unselected teams, empty problem lists) with unique ids satisfy the invariant, whether the ledger is empty or is the one a re-seed leaves behind (entries only of deleted teams, at most one active per team) |
| SelectionProperties.TeamInAtMostOneProblem | backend/routes/problems.js:98-127 | in a valid store a team appears in at most one problem's `selectedBy` |
| SelectionProperties.SelectedTeamRecorded | backend/routes/problems.js:126-141 | a selected team is listed by its problem, has an active ledger entry for it, and has a selection time |
| SelectionProperties.NoActiveWhenUnselected | backend/models/Selection.js:30 | in a valid store an unselected team has no active ledger entry |
| SelectionProperties.RunPreservesInvariant | backend/routes/problems.js:67-174 | after any sequence of calls the invariant holds: no problem over capacity, at most one active entry per team |
| SelectionProperties.RunKeepsSelection | backend/routes/problems.js:98-105 | after any sequence of calls a selected team's record is unchanged |
| SelectionProperties.ThreeTeamsTwoSlots | backend/routes/problems.js:118-128 | three distinct teams selecting a fresh two-slot problem in turn: two succeed, the third is refused as unavailable, and the list holds the first two |
| SelectionProperties.OneTeamTwoProblems | backend/routes/problems.js:98-133 | one team requesting two available problems in turn: the first succeeds, the second is refused as already selected, and the team is bound to the first |
| SelectionProperties.LastSlotReportsFull | backend/routes/problems.js:190-200 | after a success that takes the last free slot, the availability query reports zero slots, not available, and a count equal to `maxTeams` |

## Left out

- Concurrency and the MongoDB session and transaction machinery: each call is
  one atomic step that either commits all three writes or has no effect.
  Interleavings, retries after transient store errors and conflict detection
  at commit are not modelled.
- The auth middleware (JWT verification, bearer-header parsing, the 401
  answers): the authenticated team's `teamId` is a parameter.
- express-validator is reduced to "the field is a non-empty string". A missing
  field reads as the empty string, and body values that are not strings are
  not modelled.
- Id casting: `_id`s are compared as exact strings. `findById` casts the body
  string to an ObjectId, so a malformed id (a 500 from the cast error) and
  the cast's case-insensitive hex (an upper-case spelling that finds the
  problem) are not modelled; the model answers such a request with 404.
- The two `new Date()` readings (the team's and the ledger entry's
  `selectionTime`) are one parameter `now`.
- `trim` setters and the `timestamps` fields (`createdAt`, `updatedAt`) of all
  three schemas.
- `maxTeams` is an integer; the schema's `Number` could also hold a fraction.
- bcrypt: `hash` and the salt are parameters of `PreSave`.
  `comparePassword` belongs to the login route and is not modelled.
- `PreSave` returns the saved record as a value; the hook's in-place overwrite
  of `this.password` is not modelled as a mutation.
- The list and detail GET handlers (backend/routes/problems.js:15-62),
  backend/routes/teams.js, backend/routes/auth.js, backend/seed.js and
  backend/server.js: they are query glue, wiring and sample data.
- `populate`, JSON shaping and console logging.
