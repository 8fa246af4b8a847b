# The Mighty To-Do List bot, modelled in Dafny

A model of the command handlers and the reminder machinery of a Telegram
to-do bot: `/add`, `/delete`, `/complete` and `/list` over the `tasks`
table, the one-shot "due now" alarm each `/add` schedules, and the daily
"due in 24 hours" sweep run once a day by the notifier loop.

The bot's state is the class `Bot.ReminderBot`. Its fields are:

- the table, a map from id to row;
- the autoincrement counter;
- the job queue's pending alarms, as a sequence;
- the notifier's `reminded_today` flag.

Each handler is a method that returns the reply it would send. The
`ensures` of `/add`, `/delete` and `/complete` give the reply and the whole
new state on every branch: usage, not found, bad date, past deadline, and
success. The reading handlers change nothing. The sweep's `ensures` gives
its messages. `/list` is a function: its `ensures` says when it replies
with the sentinel, and its body is the query followed by the rendering,
whose properties are lemmas in `Listing`.

The class invariant `Bot.Consistent` holds across every handler. It says:

- ids are positive and below the counter;
- the table is keyed by each row's id;
- every pending alarm belongs to a live row;
- no two alarms share a name.

So an id is never reused. `/delete` leaves nothing scheduled for the deleted
task. A fired alarm leaves no other alarm for its task.

Modules, one per concern:

- `Text` (text.dfy): Python's `str.split` on one character, `str.join`,
  `str.strip`, `str.isdigit`, `int()` and `str()` on naturals, with their
  round trips.
- `Records` (records.dfy): rows, jobs, messages, the reply texts, the
  table scan `Select`.
- `Listing` (listing.dfy): the `/list` query, its ordering, and the
  rendering of the reply.
- `Sweep` (sweep.dfy): the 24-hour window, the sweep's messages, and the
  `reminded_today` state machine across a day and across many days.
- `Bot` (bot.dfy): argument parsing, job cancellation, the invariant, and
  the `ReminderBot` class with its handlers.
- `Scenario` (scenario.dfy): clients that drive a fresh bot through `/add`,
  `/list`, `/complete` twice, `/delete` and a sweep. For the handling
  methods they use only the contracts, which shows those contracts pin down
  the exact replies. The `/list` check uses the body of `ListTasks`
  together with the `Listing` lemmas.

Time is whole local seconds, with midnight at every multiple of 86400. The
current time is a parameter of every handler that reads the clock.
`strptime` is the parameter `parseDeadline`: a function from the deadline
text to an instant, or to nothing when the text does not parse.

Each row keeps both the parsed instant and the deadline text as stored. The
instant orders `/list` and decides the sweep's window. The text is printed
back verbatim.

Where the code and its documentation disagree, the model follows the code:

- `/list` returns completed tasks too, ordered after the open ones. The
  docstring at app/bot.py:286 and the help text at app/bot.py:63 say only
  open tasks are listed.
- `/add` accepts empty descriptions and categories. It only checks that
  there are three `;`-separated pieces.
- `/add` replies with the new id (`Task 7 added successfully!`), as
  tests/test_add_task.py:52-54 expects. tests/test_bot.py:118-120 expects
  a reply without the id.
- Marking a task completed does not cancel its "due now" alarm. The model
  keeps the job queue unchanged on `/complete`.

## Model

| member | source | states |
|---|---|---|
| Bot.ReminderBot.constructor | app/bot.py:27-44 | On a new database file the table starts empty and the first id is 1. No alarm is pending and `reminded_today` is false. The invariant holds. |
| Bot.ReminderBot.Restart | app/bot.py:27-44 | A start over an existing database keeps the table and its counter. The job queue starts empty and `reminded_today` starts false. The invariant holds. |
| Bot.ReminderBot.AddTask | app/bot.py:83-147 | The reply is the usage text when the joined arguments do not split into exactly three pieces, the date-format error when the deadline text does not parse, and the future-deadline error when the deadline is not after now; each leaves the state unchanged. Otherwise the row (stripped description, category and deadline text, open) is inserted under the counter's value, which was not in use before; the counter increases by one; a job named with the id's decimal text is appended, firing at the deadline, addressed to the issuing chat and carrying the "due now" text; no earlier job has that name; the reply names the id. |
| Bot.ReminderBot.DeleteTask | app/bot.py:160-212 | A missing or non-digit first argument gives the usage reply with no change. A row the caller does not own, or one that does not exist, gives the not-found reply with no change. Otherwise the row is removed, exactly the jobs named by the id are cancelled, and the other jobs remain in order; afterwards the caller owns no row with that id and no job bears its name. |
| Bot.ReminderBot.MarkCompleted | app/bot.py:225-271 | The usage reply is as for `/delete`. The not-found reply with no change covers a row that is missing, owned by someone else, or already completed. Otherwise only that row's completed flag changes, to true; the handler may modify only the table, so jobs, counter and flag are untouched; a second `/complete` of the same id is refused. |
| Bot.ReminderBot.ListTasks | app/bot.py:284-315 | The reply is the no-tasks sentinel exactly when the caller owns no row. |
| Bot.ReminderBot.NotifyDueTasks | app/bot.py:329-355 | The loop sends exactly the reminders of the rows in the due window, one per row, in fetch order; it changes nothing. |
| Bot.ReminderBot.RunNotifiersStep | app/bot.py:365-383 | One poll: the flag becomes whether the time of day has reached 09:00:00, and the sweep's messages are sent exactly when it has and the flag was clear; otherwise nothing is sent. |
| Bot.ReminderBot.FireJob | app/bot.py:71-80 | A due job sends its stored message to its stored chat and leaves the queue; the other jobs keep their order and none shares its name. |
| Bot.Deadline | app/bot.py:91-106 | There is no deadline instant unless the space-joined arguments hold exactly two semicolons. |
| Bot.DeadlineOfPieces | app/bot.py:91-106 | When the joined arguments are three semicolon-free pieces, the instant is the date parser's result on the third piece, stripped. |
| Bot.ReminderBot.InsertWithAlarm | app/bot.py:120-145 | Stores the row under the counter's value, which was unused, increments the counter, appends the alarm, whose name no pending job already bears, and keeps the invariant. |
| Bot.ParseAddArgs | app/bot.py:91-102 | The arguments are accepted exactly when their space-joined text holds two semicolons. |
| Bot.ParseAddArgsPieces | app/bot.py:91-102 | Whatever three semicolon-free pieces the joined text consists of, the fields are those pieces stripped. |
| Bot.WithoutName | app/bot.py:202-210 | A job is kept exactly when it is in the queue under another name; the queue never grows; a queue without that name is kept whole. |
| Bot.CancelJobsNamed | app/bot.py:202-210 | The removal loop leaves exactly `WithoutName` of the queue. |
| Bot.InsertKeepsConsistent | app/bot.py:120-145 | An insert under the counter's value: the id was unused, no pending job has its name, and the invariant holds after the insert, the counter's increment and the new job. |
| Bot.RemoveKeepsConsistent | app/bot.py:193-210 | Removing a row together with the jobs named by its id keeps the invariant. |
| Bot.UpdateKeepsConsistent | app/bot.py:261-265 | Replacing a row in place keeps the invariant. |
| Bot.DropJobKeepsConsistent | app/bot.py:71-80 | Dropping a fired job keeps the invariant, and no remaining job shares its name. |
| Bot.KeptNamesDistinct | app/bot.py:202-210 | Two jobs kept by the cancellation have distinct names when the queue's names were distinct. |
| Records.Alarm | app/bot.py:71-80 | The `alarm` callback's send: the job's stored message to the job's stored chat. `Bot.ReminderBot.FireJob` returns it and removes the job. |
| Records.Select | app/bot.py:294-302 | A row is selected exactly when it is in the table under its own id, below the bound, and satisfies the filter; rows come in strictly increasing id order. |
| Listing.Insert | app/bot.py:298 | Inserting into a listing-ordered sequence keeps it ordered and adds exactly that row. |
| Listing.Sort | app/bot.py:298 | `ORDER BY completed, deadline`: the result is ordered (open before completed, then by deadline) and is a permutation of the input. |
| Listing.PermutationKeepsDistinctIds | app/bot.py:294-302 | Reordering rows cannot make two of them share an id. |
| Listing.Query | app/bot.py:294-302 | The fetched rows are exactly the caller's rows, each once, in listing order. |
| Listing.RenderList | app/bot.py:303-315 | The `/list` reply renders the sentinel exactly when there are no rows, and otherwise starts with the header line. |
| Listing.RenderRow | app/bot.py:309-310 | One listing line: the decimal id, `: `, the description, ` - `, the category, ` - `, `True` or `False` for the completed flag, ` - due by ` and the deadline text as stored. `Listing.RenderRowSingleLine` proves the line holds no line break when the fields hold none. |
| Listing.RenderRows | app/bot.py:308-312 | One rendered line per row, in row order. |
| Listing.RenderListLines | app/bot.py:303-312 | When no field holds a line break, the reply's lines are the header followed by one line per row, in fetch order. |
| Listing.RenderRowSingleLine | app/bot.py:309-310 | A row whose fields hold no line break renders as one line. |
| Sweep.TimeOfDay | app/bot.py:371-375 | The time of day lies in one day and differs from the instant by whole days. |
| Sweep.DueTasks | app/bot.py:337-346 | A row is fetched exactly when it is open and its deadline lies in `[now, now + 24h)`, each once, in id order. |
| Sweep.ReminderTextStripped | app/bot.py:349-351 | Stripping the indented message literal leaves exactly the reminder sentence, for any description. |
| Sweep.Reminders | app/bot.py:348-353 | One message per fetched row, addressed to its owner, in fetch order. |
| Sweep.RemindersExactlyDue | app/bot.py:337-353 | A row is due exactly when some reminder is for it, at its owner and with its description, and no row is reminded twice in one sweep. |
| Sweep.FireCount | app/bot.py:370-383 | The number of sweeps a run of polls fires is at most one per poll, and none when the flag is set and every poll is at or after the start. |
| Sweep.Step | app/bot.py:377-381 | After a poll the flag is set exactly when the start is reached; the sweep fires exactly when the start is reached and the flag was clear. |
| Sweep.FiresAtMostOnceADay | app/bot.py:370-383 | Over one day's polls the sweep fires at most once, and it fires exactly when the last poll has reached the start and the flag was clear or was cleared by a poll before the start (tests/test_notify_due_tasks.py:135-153 polls twice after the start and expects one sweep). |
| Sweep.FlagAfterDay | app/bot.py:377-381 | After a day's polls the flag is set exactly when the last poll reached the start. |
| Sweep.FireCountAppend | app/bot.py:370-383 | The sweeps fired over two consecutive runs of polls add up. |
| Sweep.FiresOncePerDay | app/bot.py:370-383 | Over consecutive days each polled before and after the start, the sweep fires exactly once per day. |
| Sweep.RestartSweepsTwice | app/bot.py:365-383 | A restart clears the flag. So two processes polled after the start on one day fire the sweep twice, where a single process fires it once. |
| Sweep.FiresAtMostOncePerDayOverDays | app/bot.py:370-383 | Over any consecutive days the sweep fires at most once per day. |
| Text.Join | app/bot.py:91 | Python's `sep.join(parts)`: the pieces with the separator between neighbours and none at the ends. It is also the `"\n".join` of app/bot.py:308. `Text.JoinSplit` and `Text.SplitJoin` prove it inverse to `Split`. |
| Text.Split | app/bot.py:91 | `split(";")` gives one more piece than there are separators, and no piece holds the separator. |
| Text.JoinSplit | app/bot.py:91 | Joining the pieces back with the separator gives the original text. |
| Text.SplitJoin | app/bot.py:308 | Splitting a join of separator-free pieces gives the pieces back. |
| Text.SplitAtFirst | app/bot.py:91 | The text before the first separator is the first piece. |
| Text.TrimStart | app/bot.py:100-102 | Removes exactly the longest whitespace prefix. |
| Text.TrimEnd | app/bot.py:100-102 | Removes exactly the longest whitespace suffix. |
| Text.Strip | app/bot.py:100-102 | The result is no longer than the input and neither starts nor ends with whitespace. |
| Text.StripIsMiddle | app/bot.py:100-102 | `strip()` keeps a slice of its input and drops only whitespace on either side of it. |
| Text.StripPadded | app/bot.py:100-102 | Stripping whitespace padding around a text that neither starts nor ends with whitespace gives that text. |
| Text.IsDigits | app/bot.py:169 | `args[0].isdigit()` of `/delete`, and of `/complete` at app/bot.py:234: a non-empty text of ASCII digits. |
| Text.ParseNat | app/bot.py:173 | `int(args[0])` on a digit text, also at app/bot.py:238: its decimal value. `Text.ParseNatToString` and `Text.NatToStringParse` prove it inverse to `NatToString` on canonical digit texts. |
| Text.NatToString | app/bot.py:142-147 | `str(n)` of a natural is a non-empty digit string without a leading zero. |
| Text.ParseNatToString | app/bot.py:173 | `int(str(n)) == n`. |
| Text.NatToStringParse | app/bot.py:169-173 | A digit string without a leading zero is `str` of its value. |
| Text.NatToStringInjective | app/bot.py:144 | Distinct ids give distinct job names. |
| Scenario.PresentationFields | tests/test_add_task.py:32-54 | `/add Prepare presentation; work; <deadline>` yields the stripped description, category and deadline text. |
| Scenario.SoleRow | app/bot.py:294-302 | Fetched rows that all carry one row's id, with no id repeated, are exactly that row. |
| Scenario.OnlyRowListed | tests/test_list_tasks.py:109-136 | The only row of the table is the whole listing of its owner. |
| Scenario.RenderPresentation | tests/test_list_tasks.py:109-136 | The listing of one open row is the header followed by its rendered line. |
| Scenario.ListShowsPresentation | tests/test_list_tasks.py:109-136 | After that `/add`, `/list` replies with the header and the line `1: Prepare presentation - work - False - due by 2030-01-01 10:00`. |
| Scenario.OnlyRowDue | tests/test_notify_due_tasks.py:32-51 | When the only row is open and due within 24 hours, the sweep fetches exactly that row. |
| Scenario.CompleteTwice | app/bot.py:232-265 | After that `/add`, the first `/complete 1` succeeds and marks the row completed, the second is refused with the not-found reply, and the job queue is unchanged. |
| Scenario.PresentationLifecycle | tests/test_list_tasks.py:109-136 | Add, list and complete twice: the replies are the id-naming acknowledgement, the exact one-row listing, then success and refusal. |
| Scenario.AddThenDelete | tests/test_delete_task.py:31-53 | `/delete 1` after that `/add` replies with success and leaves no row and no pending alarm. |
| Scenario.AddThenSweep | tests/test_notify_due_tasks.py:32-51 | A sweep ten minutes before the deadline sends exactly one reminder, to the owner, for that task. |
| Scenario.DeleteUnknown | app/bot.py:167-191 | On an empty bot, `/delete 999` gives the not-found reply and `/delete abc` the usage reply, and nothing changes. |
| Scenario.AddPresentation | tests/test_add_task.py:32-54 | `/add` on a fresh bot ten minutes before the deadline stores task 1, queues its alarm and replies with id 1. |

## Left out

- The Telegram transport, `/start` and `/help`: the model returns replies and messages instead of sending them, and those two commands only send fixed texts.
- SQLite: the table is a map. The database-error and unexpected-error branches of every handler (their "Failed to … due to a database error" replies and the logging) are not modelled, because the model's store cannot fail.
- Bot.ReminderBot.DeleteTask and Bot.ReminderBot.MarkCompleted: ids are unbounded naturals in the model, but SQLite binds 64-bit integers. For an id argument of 2^63 or more, such as `9223372036854775808`, `cursor.execute` raises `OverflowError` (app/bot.py:181-184, 246-252). That is not a `sqlite3.Error`, so the source replies with the "unexpected error" text (app/bot.py:218-222, 277-281). The model replies with the not-found text.
- Bot.ReminderBot.NotifyDueTasks: a failed `send_message` is not modelled. At app/bot.py:349-359 the send loop is inside the `try`, so one failed send ends the sweep, and the remaining due rows get no reminder that day. The contract's "one reminder per due row" assumes every send succeeds.
- Logging, including the warning when `/delete` finds no job to remove.
- `datetime.now()`, `strptime` and `total_seconds`: the clock is the parameter `now`, and parsing is the parameter `parseDeadline`. The model keeps the relation the code relies on: the alarm fires `deadline - now` seconds after `now`, which is at the deadline.
- Sweep.DueTasks: the SQL compares the stored deadline TEXT with `datetime('now', 'localtime')` as strings, and the model compares parsed instants. The results differ within the deadline's own minute. A stored text has no seconds, so it compares below every time in that minute, at both ends of the 24-hour window. They also differ for the unpadded dates `strptime` accepts, such as `2030-1-1 9:05`.
- Listing.Sort: `ORDER BY deadline` sorts the deadline text, and the model sorts the parsed instant. The two agree for zero-padded texts, not for unpadded ones. Rows that tie keep id order, which SQLite does not promise.
- Sweep.DueTasks: the order of the sweep's rows is not fixed by the SQL, which has no `ORDER BY`. The model fetches in id order.
- The notifier thread, `shutdown_event` and the 60-second wait: the loop is modelled as a sequence of polls (`Sweep.FireCount`), one `RunNotifiersStep` per poll. `asyncio.run` is a direct call.
- The job queue's own scheduler: `FireJob` is the moment a due job runs. Which due job runs first, and its timing, are not modelled.
- Bot.ReminderBot.constructor: models one process on a new database file. `init_db` uses `CREATE TABLE IF NOT EXISTS`, so a restart keeps every row and the counter, and `Bot.ReminderBot.Restart` models that start. The job queue lives in memory and is not rebuilt at start-up, so a restart loses every pending alarm. `reminded_today` also restarts as false, so a restart after 09:00 sends that day's sweep again (`Sweep.RestartSweepsTwice`). `Sweep.FiresAtMostOnceADay` and `Sweep.FiresOncePerDay` hold within one process only.
- `str.isdigit` is taken on ASCII digits only. Python's `isdigit` also accepts other Unicode decimal digits, which `int()` then parses, and compatibility digits such as superscript `²`, which `int()` rejects with `ValueError`. For the latter, `/delete` and `/complete` reply with their "unexpected error" text (app/bot.py:218-222, 277-281). The model answers both kinds with the usage text.
- Microseconds in `datetime.now()`: time is in whole seconds.
