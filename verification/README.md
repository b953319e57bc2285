# Linear automations: durations and the staleness sweep

A model in Dafny of the two pieces of decision logic in the Linear
automation scripts:

- **`Duration`** (`src/time.ts`): an exact time span. Each of the seven
  factories (`ofMilliseconds` … `ofYears`) stores the exact millisecond count
  and six coarser unit fields; `between` builds one from two instants;
  `lessThan`, `greaterThan` and `equals` compare milliseconds only. Module
  `Time` (`time.dfy`). JavaScript `bigint` division rounds toward zero, so it
  is modelled by `Time.TruncDiv`, not by Dafny's Euclidean `/`.
- **The staleness sweep** (`src/automation.ts`): `getStates` builds the
  workflow-state name→id table, `allIssues` fetches the issues of the `from`
  state (or of the whole workspace when `from` resolves to nothing), `stale`
  compares the time since an issue's last update with the threshold, and
  `moveIssues` sends one `issueUpdate` per stale issue. Module `Automation`
  (`automation.dfy`). The tracker is plain data, a list of workflow states and
  a list of issues. The sweep is a pure function
  `(state table, issues, now, {from, to, after}) → seq<UpdateRequest>`, and the
  list holds the update calls in the order they are sent.

`Wrappers` (`wrappers.dfy`) holds `Option`, which stands for JavaScript's
`undefined` and for a conversion that throws, and `Get`, the map lookup that
gives `None` for a missing key.

## Behaviour worth knowing

- The sweep looks at no snooze field, so a stale snoozed issue is moved
  (`Automation.SnoozedTodoScenario`).
- An unknown state name is not an error. An unknown `from` makes the sweep
  consider every issue in the workspace. An unknown `to` sends updates whose
  `stateId` is `undefined`.
- `ofWeeks` stores years as weeks / 52 and `ofYears` stores weeks as
  years × 52. Those values can differ from what `ofMilliseconds` derives from
  the same millisecond count, which takes a year as 365 days: `ofWeeks(52)`
  has 1 year where `ofMilliseconds` gives 0, and `ofYears(7)` has 364 weeks
  where `ofMilliseconds` gives 365 (`Time.LossyProjectionWitnesses`).

## Model

| member | source | states |
|---|---|---|
| Time.TruncDiv | src/time.ts:44-49 | the quotient rounds toward zero for either sign: q·d ≤ a < q·d + d for a ≥ 0 and q·d − d < a ≤ q·d for a < 0 |
| Time.TruncDivNegate | src/time.ts:44-49 | bigint division is odd: (−a)/d = −(a/d) |
| Time.TruncDivChain | src/time.ts:45-49 | dividing step by step through the unit ladder equals dividing once by the product of the divisors |
| Time.OfMilliseconds | src/time.ts:37-62 | milliseconds are stored exactly; every coarser field is the count divided, toward zero, by that unit's length in milliseconds (a year is 365 days) |
| Time.NegativeRoundsTowardZero | src/time.ts:44-45 | −1500 ms is −1 second and 0 minutes, not −2 seconds |
| Time.OfMillisecondsNegate | src/time.ts:42-49 | negating the count negates every field |
| Time.ProjectsUnique | src/time.ts:42-49 | a duration whose fields are projections is determined by its milliseconds alone |
| Time.OfSeconds | src/time.ts:64-89 | milliseconds = s × 1000 and seconds = s |
| Time.OfMinutes | src/time.ts:91-116 | milliseconds = m × 60000 and minutes = m |
| Time.OfHours | src/time.ts:118-143 | milliseconds = h × 3600000 and hours = h |
| Time.OfDays | src/time.ts:145-170 | milliseconds = d × 86400000 and days = d |
| Time.OfWeeks | src/time.ts:172-197 | milliseconds = w × 604800000 and weeks = w |
| Time.OfYears | src/time.ts:199-224 | milliseconds = y × 31536000000 and years = y |
| Time.OfSecondsAgrees | src/time.ts:64-89 | `ofSeconds(s)` is field for field `ofMilliseconds(s × 1000)` |
| Time.OfMinutesAgrees | src/time.ts:91-116 | `ofMinutes(m)` is field for field `ofMilliseconds(m × 60000)` |
| Time.OfHoursAgrees | src/time.ts:118-143 | `ofHours(h)` is field for field `ofMilliseconds(h × 3600000)` |
| Time.OfDaysAgrees | src/time.ts:145-170 | `ofDays(d)` is field for field `ofMilliseconds(d × 86400000)` |
| Time.OfWeeksAgreesExceptYears | src/time.ts:172-197 | `ofWeeks(w)` equals `ofMilliseconds` of its milliseconds except `years`, which is w/52 there and 7w/365 in `ofMilliseconds` |
| Time.OfYearsAgreesExceptWeeks | src/time.ts:199-224 | `ofYears(y)` equals `ofMilliseconds` of its milliseconds except `weeks`, which is 52y there and 365y/7 in `ofMilliseconds` |
| Time.LossyProjectionWitnesses | src/time.ts:184-210 | 52 weeks is 1 year by `ofWeeks` and 0 by `ofMilliseconds`; 7 years is 364 weeks by `ofYears` and 365 by `ofMilliseconds` |
| Time.Trichotomy | src/time.ts:51-59 | exactly one of less-than, equals, greater-than holds, and equals means equal milliseconds |
| Time.ComparisonLaws | src/time.ts:51-59 | a < b ⇔ b > a; less-than and greater-than are irreflexive; equals is reflexive and symmetric |
| Time.UnitsCompareEqual | src/time.ts:57-59 | durations built from different units with equal milliseconds compare equal |
| Time.Instant | src/time.ts:26-28 | a date argument is its own instant and a text argument is the instant it parses to, or none (plain definition; its properties are stated by `Time.InstantNormalises`) |
| Time.InstantNormalises | src/time.ts:26-28 | a text `start` behaves as the date it parses to; an unparsable `start` makes `between` throw whatever `end` is |
| Time.Between | src/time.ts:25-34 | as written: defined exactly when `start` is a valid instant; with a date `end` the span is end − start, and with a text `end` it is 0 |
| Time.BetweenIntended | src/time.ts:25-34 | corrected: defined when both instants are valid, and the span is end − start |
| Time.BetweenSameInstant | src/time.ts:25-34 | `between(t, t)` is `ofMilliseconds(0)` |
| Time.BetweenDatesAgree | src/time.ts:25-34 | with two dates, the as-written and corrected versions agree, and the span end − start may be negative |
| Time.BetweenTextEndIgnored | src/time.ts:29-31 | a text `end` five milliseconds after `start` gives 0 ms as written and 5 ms as intended |
| Time.ShippedThresholds | src/main.ts:9-12 | the shipped thresholds of 2 and 7 days are 172800000 and 604800000 ms |
| Automation.GetStates | src/automation.ts:48-56 | every listed name is a key, only listed names are keys, and each key maps to the id of the last state listed under that name |
| Automation.GetStatesLastWins | src/automation.ts:52-54 | when several states share a name, the later one's id wins |
| Automation.GetStatesKeys | src/automation.ts:48-56 | a name resolves if and only if some listed state has it |
| Wrappers.Get | src/automation.ts:23 | `state[name]`: the mapped id, or `undefined` for a missing name (plain definition; its properties are stated by `Automation.ResolveName`) |
| Automation.ResolveName | src/automation.ts:23 | looking a name up in the table gives an id exactly when some state has that name, and then the id of the last such state |
| Automation.Candidates | src/automation.ts:23 | the candidates are the issues in the state `from` names, or every issue when `from` names no state |
| Automation.AllIssues | src/automation.ts:58-67 | with no state id, every issue; with one, exactly the issues in that state |
| Automation.Stale | src/automation.ts:43-46 | stale if and only if now − updatedAt > threshold, strictly |
| Automation.StaleMonotone | src/automation.ts:45 | stale under a threshold implies stale under every shorter one |
| Automation.StaleOnlyReadsUpdatedAt | src/automation.ts:43-46 | issues with the same `updatedAt` are equally stale, whatever their snooze, description or state |
| Automation.Requests | src/automation.ts:33-40 | one request per stale issue, in fetch order, each carrying that issue's id and the target state only |
| Automation.MoveIssues | src/automation.ts:21-41 | the requests correspond one for one, in order, to the stale candidates, and each sets the state `to` resolves to |
| Automation.RequestsAppend | src/automation.ts:33-40 | sweeping two runs of issues is sweeping the first then the second, so requests follow fetch order |
| Automation.MovedIffStale | src/automation.ts:33-35 | a stale candidate, snoozed or not, is requested to move; an id none of whose candidates is stale gets no request |
| Automation.UnknownFromSweepsEverything | src/automation.ts:58-62 | an unknown `from` (line 23 looks up `undefined`) makes every issue of the workspace a candidate |
| Automation.UnknownToSendsUndefinedState | src/automation.ts:35 | an unknown `to` gives requests whose state is undefined |
| Automation.SnoozedTodoScenario | src/automation.ts:33-46 | two Todo issues ten days old, one snoozed, swept to Triage after two days: both are moved |

## Findings

| source | as written | input that shows it | evidently intended | confidence | as-written member | corrected member |
|---|---|---|---|---|---|---|
| src/time.ts:29-31 | a text `end` is replaced by `new Date(start)`, so the span is always 0 | `start` = the date at 0 ms, `end` = a text for 5 ms | `new Date(end)`, giving 5 ms | high; not executed | Time.Between, Time.BetweenTextEndIgnored | Time.BetweenIntended |

`Automation.Stale` calls the as-written `Time.Between`, as the code does. It
passes two dates, and there both versions agree (`Time.BetweenDatesAgree`).

## Left out

- `Time.now` and `Time.from` are left out. So is parsing an ISO text into a date. These are a clock and the JavaScript `Date` parser. The current instant is a parameter. A text argument of `between` is represented by the instant it parses to, or `None` when it does not parse.
- Automation.Stale: takes one `now` for the whole sweep. The code reads the clock once for each issue, so two issues compare against slightly different instants.
- Time.Between: date arguments are always valid instants. An invalid `Date` object and the ±8.64e15 ms range of JavaScript dates are not modelled. The code subtracts the two `getTime()` values as floating-point numbers before converting to `bigint`, so a span beyond 2^53 ms is rounded there; the model subtracts exactly. For example, start = −8639999999999999 and end = 8640000000000000 give 17280000000000000 ms in the code and 17279999999999999 ms in the model.
- The `number`→`bigint` coercion in each factory is left out. Inputs are integers. A non-integer number would throw in JavaScript.
- `lastUpdatedFilter` (src/automation.ts:70-74) is left out. It is dead code, it converts the span to a floating-point number, and it logs.
- The Linear client, its network calls (`workflowStates`, `issues`, `workflowState(..).issues`, `issueUpdate`) and promise chaining are left out. They are I/O. The client is data in the model: a list of states and a list of issues.
- Automation.AllIssues: the issues fetched for a state are modelled as the tracker's issues in that state, in tracker order. The client returns only the first page of results. Paging and the server's ordering are not modelled.
- The fire-and-forget concurrency of the updates is left out. So is the `UPDATED` / `FAILED TO UPDATE` logging (src/automation.ts:35-38). These have no effect on which requests are sent.
- Wrappers.Get: models the lookup `state[name]` (src/automation.ts:23, 35) as a map lookup and does not model JavaScript object prototype keys. In the code, a name such as `constructor` returns a function rather than `undefined`.
- Automation.GetStates: models `states[node.name] = node.id` (src/automation.ts:53) as a map update and does not model prototype keys. In the code, recording a state named `__proto__` is ignored, while the model records it.
- The unused static `LinearAutomation.now` is left out. So is the environment loading in src/main.ts. Its two sweeps are used only as `Time.ShippedThresholds`.
