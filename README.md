# Reminder engine of cuckoo, in Dafny

This project models the two parts of the cuckoo personal reminder service that
hold its logic:

- the **repeat rule** (`app/lib/repeat.js`): the recogniser of repeat type
  strings (`daily`, `end_of_month`, `hourly`, `minutely`, `monthly`, `weekly`,
  `yearly`, `every_<N>_days|hours|minutes`), one step of each rule, the
  catch-up loop `nextTimestamp`, and `patch`;
- the **task service** (`app/service/task.js`): `remind`, which fires one
  reminder for a task and then snoozes, closes or continues it; `_schedule`,
  which closes a reminder and re-queues it if it repeats; `getFollowing`,
  which previews upcoming firings from the queue; and `duplicate`.

Files:

- `decimal.dfy` (module `Decimal`): digit strings, what `parseInt` reads from
  them, and how `${n}` renders a number.
- `repeat.dfy` (module `Repeat`): the `Kind` of a rule, `ValidateType`, the
  dispatch `KindOf` of the stepping loop, `Step` and `Iterate`, and the class
  `Repeat` with `NextTimestamp` and `Patch`.
- `directive.dfy` (module `Activation`): the three snooze directives an
  activation value may carry, tested in priority order.
- `task.dfy` (module `TaskService`): the class `Service`, whose fields are the
  collaborators' state. The fields are the task and reminder maps, the queue of
  sent entries, the remind log, the notification calls and the duplication
  requests.

Inputs that the source reads from the environment are parameters. These are the
clock (`now`, today's 08:00), the device's current context, the local hour of a
timestamp (`localHour`) and what the notifier answers (`reply`). The calendar
arithmetic of the `date-arithmetic` library and of `Date.setDate(0)` is an
abstract `Calendar` of three functions. The reminder class's `close` and
`isRepeated` are two functions injected into `Service`.

## Behaviour of the code worth knowing

The model follows the code, including these points:

- The `Repeat` constructor stores the type without checking it
  (app/lib/repeat.js:25).
- `validateType` accepts a count of 0 (`every_0_days`). See Findings.
- The `8点` snooze adds 12-hour steps to today's 08:00 until the result is not
  before now. It can therefore land at 20:00 on the same day rather than the
  next morning; only after 20:00 does it land on the next day's 08:00.
- `remind` compares contexts by **name** (app/service/task.js:95).
  `getFollowing` compares them by **id** (app/service/task.js:60).
- In `remind`, a missing task is dereferenced and the call throws before any
  effect (`TaskMissing`). It is not skipped.
- An inactive task's reminder is neither logged nor rescheduled.

## Model

| member | source | states |
|---|---|---|
| Repeat.ValidateType | app/lib/repeat.js:87-101 | a rejected string carries the message "`<type>`不是一个合法的重复模式"; an accepted one is non-empty |
| Repeat.AcceptedIsSpelling | app/lib/repeat.js:87-101 | every accepted string is the spelling of some kind: one of the seven literals, or `every_` + digits (leading zeros allowed) + `_days`/`_hours`/`_minutes` |
| Repeat.SpellingIsAccepted | app/lib/repeat.js:87-101 | every such spelling is accepted, and the stepping loop dispatches it to exactly that kind (count read as `parseInt` reads it) |
| Repeat.KindOf | app/lib/repeat.js:38-66 | the stepping loop's if-chain selects a kind exactly when the recogniser accepts the string (so it reaches its `throw` exactly on rejected strings); it selects an `every_N_*` kind exactly for accepted strings that are not one of the seven literals |
| Repeat.Step | app/lib/repeat.js:38-64 | daily, hourly, minutely and weekly move by 86400000, 3600000, 60000 and 604800000 ms; `every_N_days/hours/minutes` move by N·86400000, N·3600000, N·60000 ms, whatever the calendar; only `end_of_month`, `monthly` and `yearly` have no fixed size |
| Repeat.IterateFixed | app/lib/repeat.js:36-68 | n iterations of a fixed kind land exactly n step sizes after the start |
| Repeat.StepAdvances | app/lib/repeat.js:36-68 | each step moves strictly forward unless the kind is a count-0 `every_` kind |
| Repeat.IterateAdvances | app/lib/repeat.js:36-68 | one or more iterations of an advancing kind end strictly after the start |
| Repeat.ZeroStepStaysPut | app/lib/repeat.js:56-64 | a count-0 rule stays at its start after any number of iterations |
| Repeat.CatchUpSteps | app/lib/repeat.js:68 | the least k ≥ 1 with current + k·step ≥ now |
| Repeat.FixedCatchUp | app/lib/repeat.js:36-69 | for a fixed kind with a positive step, the loop's result is current + k·step with the least k ≥ 1 for which that is ≥ now |
| Repeat.Repeat.NextTimestamp | app/lib/repeat.js:33-70 | throws (Invalid, with the message) exactly when the type matches no kind; never ends exactly for a count-0 kind with current < now; otherwise returns Iterate(current, k) with k ≥ 1, the result ≥ now and every earlier iterate < now; the result is > current for every step that moves; a strictly valid type always yields a time |
| Repeat.Repeat.Patch | app/lib/repeat.js:72-82 | `type` takes the value in `changes` only if the key is present; the update time is always set |
| Repeat.Repeat.constructor | app/lib/repeat.js:21-27 | stores the type string as given, unchecked |
| Repeat.ZeroCountAccepted | app/lib/repeat.js:91 | `every_0_days` is accepted and dispatched to a step of 0 ms, so from any start before now no number of iterations reaches now |
| Repeat.ValidateTypeStrict | app/lib/repeat.js:87-101 | the recogniser with count 0 rejected: it accepts exactly the strings the original accepts whose step is not 0 ms, with the same error message otherwise |
| Repeat.StrictRejectsZero | app/lib/repeat.js:56-64 | a strictly valid type selects a kind whose every step moves forward |
| Activation.FindFrom | app/service/task.js:115-118 | the unanchored match of `([0-9]+)<suffix>` finds a number exactly when some non-empty digit run stands directly before the suffix |
| Activation.FindFromSound | app/service/task.js:116-118 | the number found is the value of the digit run of the leftmost match, and no match starts further left |
| Activation.ContainsFrom | app/service/task.js:121 | the marker test succeeds exactly when the marker occurs at some position |
| Activation.Parse | app/service/task.js:115-132 | "N分钟后再提醒" wins whenever it occurs; "8点时再提醒" applies only when it does not; "N小时后再提醒" only when neither does; otherwise there is no directive |
| Activation.ParseMinutes | app/service/task.js:115-120 | "N分钟后再提醒" is read as a snooze of exactly N minutes |
| Activation.ParseHours | app/service/task.js:127-131 | "N小时后再提醒" is read as a snooze of exactly N hours, because the two earlier tests fail on it |
| Activation.MinutesBeforeEight | app/service/task.js:115-121 | "N分钟后再提醒8点时再提醒", a minutes directive followed by the 8点 marker, is read as a snooze of N minutes (the general priority is `Parse`'s first clause) |
| TaskService.ReplyDirective | app/service/task.js:109-116 | a string activation value of a non-empty stdout that parsed as JSON always yields that value's `Parse`, and only such a value yields a directive; no stdout, an empty one, or no string activation value means no directive |
| TaskService.FiringVersusPreviewContext | app/service/task.js:60-63 | firing (task.js:95) compares a reminder's context with the device's by name only: changing the stored context's id never changes the outcome; the preview compares by id only: changing the stored name never changes it; the same name with a different id fires but is hidden from the preview, the same id with a different name is previewed but does not fire, and both situations exist for every reminder and device context |
| TaskService.RoundSeconds | app/service/task.js:98 | `Math.round(ms / 1000)`: the second nearest to `ms`, with halves rounded up |
| TaskService.EightOClockTarget | app/service/task.js:122-126 | the earliest of today's 08:00 plus whole 12-hour steps that is not before now |
| TaskService.NextEightOClock | app/service/task.js:122-125 | the `consumeUntil` loop ends at exactly that earliest time |
| TaskService.DuplicateDetailRoundTrip | app/service/task.js:17-19 | a copy's detail "复制自`<id>` `<detail>`" gives back the source id and the untouched original detail |
| TaskService.PreviewSelects | app/service/task.js:38-75 | the preview is an order-preserving selection of the queue messages: it keeps, in order, exactly those whose reminder and task exist, whose task is active, whose reminder context agrees by id with a given context, and whose restricted-hours entry for the planned hour is true; each kept message is shown with its planned time and its task |
| TaskService.Service.GetFollowing | app/service/task.js:38-75 | the loop with its skips builds exactly that preview |
| TaskService.Service.Schedule | app/service/task.js:150-158 | the reminder is always closed; it is stored again and one queue entry is sent at its timestamp exactly when it repeats; nothing else changes |
| TaskService.Service.Remind | app/service/task.js:87-140 | missing task: nothing happens; inactive task: no log row, no notification, no queue entry, no close; context name mismatch: no log row, no notification, `_schedule` once; delivery: exactly one log row (planned time, now in seconds, task id), then one notification; a stdout that is not JSON throws; minutes and hours snoozes send (task, now + 60·N or 3600·N seconds, reminder); the 8点 snooze sends the rounded 8 o'clock time; a snooze neither closes nor stores the reminder; with no stdout, no string activation value or no directive, `_schedule` runs |
| TaskService.Service.Create | app/service/task.js:6-8 | a new active task row with a fresh id and the given fields; no queue entry is sent because no reminder is passed |
| TaskService.Service.Duplicate | app/service/task.js:14-29 | the copy is a new active task whose detail is the prefixed original; one duplication request is made for each reminder of the source task, and no other request; the copy is returned |

## Left out

- Repeat.Repeat.NextTimestamp: requires the abstract calendar's month, year and end-of-month steps to move forward in time (`Advances`). This holds of the Gregorian calendar, but the model does not prove it, because `date-arithmetic` and `Date` are not part of this model.
- Repeat.Step: the claim that an `end_of_month` step always lands on the last day of a month is not proved. `setDate(0)` is abstract here, and the step is stated only as the composition the source performs.
- JavaScript numbers are doubles. The model uses unbounded integers. Precision loss above 2^53 ms, and `parseInt` of very long digit strings, are not modelled.
- Local time: `getHours`, `setHours(8, 0, 0, 0)` and time zones are parameters (`localHour`, `today08`).
- `remind` reads `Date.now()` several times. The model uses one instant `now` for the log row, the snooze times and the 8点 loop.
- The notifier, `JSON.parse`, the logger and `async` sequencing are not modelled. The notifier's answer is an input (`Reply`). A failed parse is the `MalformedReply` outcome, after the log row and the notification have already happened.
- The reminder class's `close`, `isRepeated` and `timestamp`, and the reminder service's `notify`, `get`, `search` and `duplicate` (`service.remind.*`, app/service/task.js:21,25,48,101), are outside this model. `close` and `isRepeated` are injected functions; the notifier's answer is the input `reply`. A `duplicate` call is recorded as a request (reminder id, copy id). The order in which `search` returns reminders is not modelled.
- The queue's own ordering by score is not modelled. `Service.queue` is the sequence of sent entries. `GetFollowing` takes the messages the queue lists as given.
- `delete`, `get`, `put` and `search` of the task service only delegate to the SQLite repository, so they are not modelled. The repository itself, including its `create`, is modelled only as far as `Create` needs: a fresh id and state `active`.
- Repeat.Repeat.Patch: the values in `changes` are strings, and `update_at` is a millisecond time rather than a `Date` object.
- `patch` loops over a one-element field list. The model tests the single key `type` directly.

## Findings

| source | as written | input that shows it | evidently intended | confidence | as-written member | corrected member |
|---|---|---|---|---|---|---|
| app/lib/repeat.js:91 | `[0-9]+` accepts a count of 0, so the rule steps by 0 ms and the do-while loop of `nextTimestamp` (app/lib/repeat.js:36-68) never ends once `current < now` | type `every_0_days` (also `every_00_hours`, `every_0_minutes`) with any `current < now` | reject a count of 0 when validating, so that every accepted rule moves forward | high (not executed) | Repeat.ZeroCountAccepted | Repeat.ValidateTypeStrict |
