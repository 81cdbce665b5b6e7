# Live poll state machine

A verified model of the server side of a live audience poll for streaming
broadcasts.  An operator starts a poll with a question and a list of option
labels, stops it, or resets its tallies.  Viewers vote through a public page,
one vote per network address every 30 seconds, and can ask how long their
cooldown still runs.  Display clients read a snapshot of the poll.

The model has two modules:

- `PollRules` (`poll_rules.dfy`): value-level rules. `Judge` gives the verdict
  on a vote. `CooldownAt` answers the cooldown query. `RemainingSeconds` is
  the truncated wait in whole seconds. `Total` sums the tallies. The lemmas
  about them are here too.
- `PollServer` (`poll_server.dfy`): the class `PollStore`. It holds the poll
  record (`active`, `question`, `options`, `votes`, `startTime`) and the
  per-voter cooldown table. Each HTTP handler is a method. `Valid()` is the
  store's invariant: the tally keys are exactly the set of labels, and the
  tallies add up to the number of votes accepted since they were last zeroed.
  The ghost field `acceptedSinceZeroed` keeps that count. Client
  methods (`VotingSession`, `CooldownSession`, `ClosingSession`,
  `ResetSession`, `CrossPollSession`, `ExpirySession`,
  `MalformedStartSession`, `QuestionOnlyStartSession`) replay request sequences and assert the outcomes using only the handlers' contracts.

Time is an integer count of microseconds passed in by the caller (`now`).
That is the resolution of the wall clock that the vote and cooldown handlers
read. The 30-second cooldown is 30 000 000 ticks. The reported wait is
`(end - now) / 1 000 000`, truncated like Python's `int(...)` on a positive
float. For these magnitudes the float quotient cannot round up to an integer,
so truncating the exact quotient gives the same answer.

The model keeps these behaviours of the handlers in polls.py:

- `start_poll` validates nothing. The "a question and at least two options"
  rule exists only in the dashboard page's script (polls.py:639). Repeated
  labels collapse to one tally.
- `start_poll` sets `active` before it reads the body's fields
  (polls.py:705-707). A body without `question` therefore reopens the current
  poll with its old question, labels and tallies. A body with `question` but
  without `options` also replaces the question. Both requests then fail.
  `MalformedStartSession` and `QuestionOnlyStartSession` replay this.
- The wait reported to a rejected voter is truncated, not rounded up. A voter
  with less than a second left is told 0 (`HalfSecondLeftReportsZero`).
- No lock guards the handlers. The model runs each handler as one atomic step.

## Model

| member | source | states |
|---|---|---|
| PollServer.PollStore.constructor | polls.py:12-20 | Process start: inactive poll, empty question, no options, no tallies, no start time, empty cooldown table; the invariant holds |
| PollServer.ZeroedTallies | polls.py:708 | The tally map built for a list of labels has exactly the distinct labels as keys, each with count 0 |
| PollServer.PollStore.StartPoll | polls.py:702-710 | Always sets `active`. With both fields present: question and labels as given (no validation), zero tallies keyed by the label set, start time stamped, success. A missing `question` fails with nothing else changed; a missing `options` fails after replacing the question. Cooldown table unchanged; invariant kept |
| PollServer.PollStore.StopPoll | polls.py:712-715 | Only clears `active`; question, labels, tallies, start time and cooldowns stay as they were |
| PollServer.PollStore.ResetPoll | polls.py:717-721 | With labels: every tally 0, same keys. Without labels: nothing changes. Either way the total is 0, and `active`, question, labels and cooldowns are kept |
| PollServer.PollStore.SubmitVote | polls.py:1113-1145 | Answers as `Judge` on the state before the call. Only an accepted vote changes state: the chosen tally +1 (the key is always present), total +1, the voter's cooldown set to now + 30 s, other entries untouched. Rejections change nothing |
| PollServer.PollStore.CheckCooldown | polls.py:1147-1158 | Read-only (no modifies clause, never inserts); on cooldown exactly when the voter has an entry with now < end; remaining truncated, else (false, 0) |
| PollServer.PollStore.GetPoll | polls.py:207-209 | Returns the poll record as a value; its tally keys equal its label set |
| PollRules.Judge | polls.py:1121-1137 | Vote verdict with checks in order: inactive gives NoActivePoll; otherwise a missing or unknown option gives InvalidOption; otherwise an unexpired cooldown gives OnCooldown(truncated wait); otherwise Accepted(30). Each verdict holds exactly when its condition does |
| PollRules.CooldownAt | polls.py:1152-1158 | On cooldown exactly when the voter has an entry later than now; the wait r satisfies r s <= end - now < (r + 1) s; otherwise remaining is 0 |
| PollRules.RemainingSeconds | polls.py:1132 | Whole seconds left, truncated: r * 1e6 <= end - now < (r + 1) * 1e6 |
| PollRules.TotalRemove | polls.py:1140 | The tally total is independent of summation order: any tally plus the total of the rest |
| PollRules.TotalIncrement | polls.py:1140 | Incrementing one tally raises the total by exactly one, so no vote is lost or double-counted |
| PollRules.TotalOfZeroes | polls.py:720 | A tally map of zeroes totals zero |
| PollRules.RemainingBelowCooldown | polls.py:1129-1143 | For a cooldown set at t and a clock in [t, t + 30 s), the reported wait is at most 30, and below 30 once time has passed |
| PollRules.RemainingShrinks | polls.py:1153-1155 | The reported wait never grows as the clock moves forward |
| PollRules.RevoteWithinWindowRejected | polls.py:1129-1143 | After an accepted vote at t, the same voter is not accepted again before t + 30 s, in any poll with any option; with an active poll and a valid option the rejection is OnCooldown |
| PollRules.CooldownExpires | polls.py:1129-1143 | From t + 30 s on, that voter's vote for a valid option of an active poll is accepted again |
| PollRules.OtherVotersUnaffected | polls.py:1143 | Writing one voter's cooldown entry does not change the verdict for any other voter |
| PollRules.HalfSecondLeftReportsZero | polls.py:1132 | A voter rejected with half a second left is told 0 seconds remain |

## Left out

- HTML, CSS and client-side script of the display, dashboard and voting pages, including the dashboard's two-option check and the percentage formatting: presentation, not server state.
- Flask routing, CORS, JSON parsing and serialisation, and media file serving: I/O and library calls. A request body that is not JSON, or a `start` body whose `question` is not a string or whose `options` is not a list of strings, is not modelled; a missing `question` or `options` field is (see `StartPoll`). The vote's `option` field is a string or missing (`None` in the model).
- How the voter id is derived from the request's remote address: the id is an opaque string.
- Wall-clock reads: `now` is a parameter. The float `start_time` from a second clock is modelled as the integer tick passed to `StartPoll`.
- The three listener threads and any interleaving of concurrent requests: each handler is one atomic step, so the race in which two simultaneous votes from one voter both pass the cooldown check is not modelled.
- Unbounded growth of the cooldown table: no entry is ever removed, and the handlers' contracts show that entries are only overwritten.
