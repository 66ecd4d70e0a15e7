# Agent wallboard: the agent status registry

The wallboard server keeps an in-memory table of call-center agents. Each agent has a
unique code, a name and one of five statuses: `Available`, `Active`, `Wrap Up`,
`Not Ready` or `Offline`. Its HTTP handlers list and count the table, change an agent's
status, log an agent in (creating the record for a new code), log an agent out, and
compute dashboard figures: per-status counts and whole-number percentages.

This project models that table and its handlers in Dafny and proves what they keep.

- `agents.dfy`, module `Agents`. It holds the agent record, the five statuses, the three
  seeded agents and lookup by code. It also gives each state-changing handler as a pure
  step: a function from the old table to the new table and the handler's response.
  Lemmas show that each step keeps the table invariant: codes are unique, every status
  is valid, and no record is removed or moved. They also cover any sequence of requests.
- `statistics.dfy`, module `Statistics`. It holds the per-status counts, the rounded
  percent and the dashboard figures. Lemmas show that the counts add up to the total,
  that each percent is the nearest whole number (a half rounds up), and that the five
  percents add up to between 98 and 102.
- `registry.dfy`, module `Wallboard`. Class `Registry` owns the table as a field that the
  change-status, login and logout methods update in place. Each method's postcondition
  ties the new table and its response to the matching pure step.
- `scenarios.dfy`, module `Scenarios`. It works through requests against the seeded
  start: 33% each for Available, Active and Wrap Up, A001 changed to Active, a bogus
  status refused, an unknown code, and first login of A099, both on the pure steps and
  on a `Registry` object.

Modelling choices:
- A status in a record is a string, as in the source. Validity is an invariant, not a type.
- The status in a change-status request is an `Option<string>`. A missing field is
  refused like any other invalid value.
- The name in a login request is an `Option<string>`. A missing name and the empty
  name are both refused.
- Timestamps (`Instant`) are ISO-8601 text. The caller supplies the current time as `now`.
- Responses are the `Response` datatype: `Ok(agent)`, `StatusChanged(oldStatus, agent)`,
  `NotFound`, `InvalidStatus(validStatuses)` and `MissingField`.

Points where the code's behaviour is easy to misread, modelled as the code has it:
- Login writes `loginTime`. It does not write `lastLogin`; only the seeded agents have
  `lastLogin`, and nothing updates it.
- The skill list is stored in a field named `skill`. New agents have no `skill` and no
  `extension` at all.
- The status strings have spaces (`Wrap Up`, `Not Ready`).
- Percentages use `Math.round`, which rounds a half up. This is not round-half-to-even.
- A successful status change answers with the updated record, and its message names the
  old and the new status. The model returns both as `StatusChanged(oldStatus, agent)`.

## Model

| member | source | states |
|---|---|---|
| Agents.Seed | server.js:40-65 | the server starts with three agents, A001, A002 and A003, whose codes are unique and whose statuses are valid |
| Agents.Find | server.js:94 | lookup returns the first index whose code matches exactly, and reports none exactly when no record has the code |
| Agents.FindUnique | server.js:166 | with unique codes, lookup of a record's code returns that record's index |
| Agents.ChangeStatusStep | server.js:87-125 | an unknown code gives NotFound before the status is checked; a status outside the five gives InvalidStatus listing the five, with the table unchanged; otherwise only the found record changes, getting the new status and `lastStatusChange = now`, and the response carries its previous status |
| Agents.ChangeStatusPreservesInvariant | server.js:113-115 | a status change keeps codes unique and statuses valid, and changes no code, position or length |
| Agents.ChangeStatusThenFind | server.js:113-124 | any of the five statuses can be set on any existing agent, its own status included, and lookup afterwards finds it with that status |
| Agents.LoginStep | server.js:154-188 | a missing or empty name gives MissingField with the table unchanged; an unknown code appends exactly one record `{code, name, Available, loginTime = now}`; a known code keeps the length and overwrites only name, status (Available) and `loginTime` of that record |
| Agents.LoginPreservesInvariant | server.js:166-180 | login keeps codes unique and statuses valid, grows the table by at most one, and keeps every existing record's code in place |
| Agents.LoginGrowsOnlyForUnknownCode | server.js:166-175 | the table grows by one exactly when the name is given and the code is unknown, and otherwise keeps its length, so a second login never duplicates a record |
| Agents.LoginConverges | server.js:166-180 | two logins with the same code and name leave the same table as one login at the later time |
| Agents.LogoutStep | server.js:191-212 | an unknown code gives NotFound with the table unchanged; otherwise only that record changes, to status Offline with no `loginTime` |
| Agents.LogoutPreservesInvariant | server.js:203-204 | logout keeps codes unique and statuses valid and changes no code, position or length |
| Agents.LogoutIdempotent | server.js:193-204 | a second logout of the same code leaves the table as the first one left it |
| Agents.ApplyPreservesInvariant | server.js:87-212 | each state-changing request keeps the invariant, never shrinks the table and keeps every record's code in place |
| Agents.RunPreservesInvariant | server.js:40-212 | after any sequence of requests, codes are unique, statuses are valid, no record was removed and every record keeps its position and code |
| Agents.ReachableTablesValid | server.js:40-65 | every table reachable from the seeded start satisfies the invariant and still holds the seeded agents A001, A002 and A003 at positions 0 to 2 |
| Statistics.CountStatus | server.js:131-135 | the number of records with a status, which is at most the table size |
| Statistics.CountIsMultiplicity | server.js:131-135 | each count equals the number of occurrences of exactly that status string among the records' statuses |
| Statistics.CountsSumToTotal | server.js:129-135 | while every status is valid, the five counts add up to `totalAgents` |
| Statistics.Percent | server.js:137 | the percent is 0 when there are no agents and at most 100 when the count does not exceed the total |
| Statistics.PercentIsNearest | server.js:137 | for a positive total, the percent is less than half a unit below `100 * count / total` and at most half a unit above it, so it is `round(count * 100 / total)` with a half rounded up |
| Statistics.StatFor | server.js:143-147 | each status's pair holds its count and `Percent(count, total)`, which is at most 100 |
| Statistics.Stats | server.js:128-151 | the dashboard reports the table size and, per status, its count and `Percent(count, total)`, each percent at most 100; all figures are 0 for an empty table; and the counts add up to the total while statuses are valid |
| Statistics.PercentsNearHundred | server.js:137-148 | for a non-empty valid table, the five rounded percents add up to between 98 and 102 |
| Statistics.RoundedSharesSum | server.js:137 | five shares of a total, each rounded to within half a percent, add up to between 98 and 102 percent |
| Statistics.ChangeStatusMovesOneAgent | server.js:113-115 | a successful status change moves one agent from its old status's count to its new status's count, and the total stays the same |
| Statistics.LoginNewAgentCounts | server.js:168-175 | first login of a new code adds one to the total and to the Available count, and to no other count |
| Statistics.LogoutMovesToOffline | server.js:203 | logout moves one agent from its previous status's count to the Offline count |
| Wallboard.Registry.constructor | server.js:40-65 | the registry starts with the seeded table, which satisfies the invariant |
| Wallboard.Registry.List | server.js:68-75 | listing returns the whole table in order, together with its length |
| Wallboard.Registry.Count | server.js:78-84 | the count is the table's length |
| Wallboard.Registry.ChangeStatus | server.js:87-125 | the in-place update leaves exactly the table and response of the change-status step, and keeps the invariant and every code |
| Wallboard.Registry.Login | server.js:154-188 | the in-place upsert leaves exactly the table and response of the login step, keeps the invariant and never shrinks the table |
| Wallboard.Registry.Logout | server.js:191-212 | the in-place update leaves exactly the table and response of the logout step, and keeps the invariant and every code |
| Wallboard.Registry.DashboardStats | server.js:128-151 | the figures are those of the current table, and their counts add up to its size |
| Scenarios.SeedStats | server.js:129-148 | on the seeded table, the dashboard shows 3 agents: Available, Active and Wrap Up at 1 and 33% each, Not Ready and Offline at 0 and 0%; the percents add up to 99 |
| Scenarios.ChangeSeededAgentToActive | server.js:113-124 | changing A001 to Active reports old status Available and new status Active, and leaves A002 and A003 as they were |
| Scenarios.BogusStatusRefused | server.js:103-111 | the status "Bogus" on A001 is refused with exactly the five valid statuses, and the table is unchanged |
| Scenarios.UnknownCodeBeforeBogusStatus | server.js:94-101 | an unknown code with a bogus status gives NotFound, not InvalidStatus |
| Scenarios.FirstLoginOfNewAgent | server.js:166-175 | first login of A099 as "New Guy" takes the count from 3 to 4, and the new record is Available with only its login time set |
| Scenarios.SeededSession | server.js:78-212 | on a `Registry` object started from the seed, and using only its methods' contracts: after A001 changes to Active, A099's first login takes `Count` from 3 to 4, and its logout answers with A099 Offline and without a login time |

## Left out

- Express setup, CORS, JSON body parsing, `app.listen` and the `/`, `/Hello` and `/health` routes (server.js:1-29, 214-217). These are framework plumbing with no registry logic.
- `console.log` tracing. It is output only.
- The clock. `new Date()` and `toISOString()` become the caller-supplied `now`, and the timestamps in response envelopes are not modelled.
- Response envelopes: `success` flags, `message` texts, bodies and HTTP status codes (200, 400, 404). The `Response` outcomes stand in for them.
- Statistics.Percent: uses exact rational arithmetic, not IEEE double arithmetic. `Math.round((count / total) * 100)` can round differently when the exact value is a half and the double lands just below it: for 23 of 40 agents the model gives 58 where the double gives 57.
- JavaScript values other than strings in `name` and `status`. A truthy non-string name would be stored as it is; the model only distinguishes an absent or empty name from a string name. A non-string status is always refused, which the model's absent or non-matching string covers.
- Record identity. The source mutates record objects and returns a reference to them. The model replaces records with updated values inside the table. Responses are serialized at once, so nothing observes the difference.
- Concurrency. Node's event loop runs each handler to completion, so the model treats requests one at a time, in order.
