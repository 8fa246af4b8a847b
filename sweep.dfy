/** The daily sweep: which rows are due within the next 24 hours, the message
    each owner gets, and the `reminded_today` poll step of the notifier loop.
    Time is in whole local seconds, with midnight at every multiple of
    `DayLength`. */
module Sweep {
  import opened Text
  import opened Records

  const DayLength: int := 24 * 60 * 60

  /** `DAILY_REMINDER_START = "09:00:00"`, in seconds after midnight. */
  const ReminderStart: int := 9 * 60 * 60

  /** Seconds since the last local midnight. */
  function TimeOfDay(now: int): (t: int)
    ensures 0 <= t < DayLength
    ensures (now - t) % DayLength == 0
  {
    now % DayLength
  }

  /** The sweep's filter: open, and due in `[now, now + 24h)`. */
  predicate InDueWindow(t: Task, now: int) {
    !t.completed && now <= t.deadline < now + DayLength
  }

  /** The rows the sweep fetches, across all owners, each once. */
  function DueTasks(tasks: map<nat, Task>, n: nat, now: int): (due: seq<Task>)
    requires WellKeyed(tasks) && KeysBelow(tasks, n)
    ensures forall t :: t in due <==> (t.id in tasks && tasks[t.id] == t && InDueWindow(t, now))
    ensures forall i, j :: 0 <= i < j < |due| ==> due[i].id < due[j].id
  {
    Select(tasks, n, (t: Task) => InDueWindow(t, now))
  }

  /** The reminder sent for one due row: to its owner's chat. */
  function DueReminder(t: Task): Message {
    Message(t.owner, DueSoonText(t.description))
  }

  /** The indentation around the sweep's triple-quoted message. */
  const Indent: string := "\n" + "                "

  /** The sweep strips its indented message literal: what is sent is exactly
      the reminder sentence, whatever the description. */
  lemma ReminderTextStripped(description: string)
    ensures Strip(Indent + DueSoonText(description) + Indent) == DueSoonText(description)
  {
    var head, tail := "Reminder: Task '", "' is due in 24 hours!";
    var text := DueSoonText(description);
    assert text == head + description + tail;
    assert text[0] == head[0];
    assert text[|text| - 1] == tail[|tail| - 1];
    StripPadded(Indent, text, Indent);
  }

  /** The messages of one sweep, one per fetched row, in fetch order. */
  function Reminders(due: seq<Task>): (sends: seq<Message>)
    ensures |sends| == |due|
    ensures forall k :: 0 <= k < |due| ==> sends[k] == Message(due[k].owner, DueSoonText(due[k].description))
  {
    if due == [] then [] else Reminders(due[..|due| - 1]) + [DueReminder(due[|due| - 1])]
  }

  /** Every due row gets exactly one reminder, at its owner, and every
      reminder is for a due row. */
  lemma {:induction false} RemindersExactlyDue(tasks: map<nat, Task>, n: nat, now: int, id: nat)
    requires WellKeyed(tasks) && KeysBelow(tasks, n)
    ensures var due := DueTasks(tasks, n, now);
            var sends := Reminders(due);
            (id in tasks && InDueWindow(tasks[id], now))
            <==> (exists k :: 0 <= k < |due| && due[k].id == id
                   && sends[k] == Message(tasks[id].owner, DueSoonText(tasks[id].description)))
    ensures var due := DueTasks(tasks, n, now);
            forall k, l :: 0 <= k < |due| && 0 <= l < |due| && due[k].id == id && due[l].id == id ==> k == l
  {
    var due := DueTasks(tasks, n, now);
    if id in tasks && InDueWindow(tasks[id], now) {
      assert tasks[id] in due;
      var k :| 0 <= k < |due| && due[k] == tasks[id];
      assert due[k].id == id;
    }
  }

  /** The outcome of one poll of the notifier loop. */
  datatype Poll = Poll(reminded: bool, fire: bool)

  /** One iteration of `run_notifiers`: fire the sweep the first time the
      start is reached, clear the flag while before the start. */
  function Step(reminded: bool, timeOfDay: int): (p: Poll)
    ensures p.reminded <==> ReminderStart <= timeOfDay
    ensures p.fire <==> (ReminderStart <= timeOfDay && !reminded)
  {
    if ReminderStart <= timeOfDay && !reminded then Poll(true, true)
    else if ReminderStart > timeOfDay then Poll(false, false)
    else Poll(reminded, false)
  }

  /** How many sweeps a run of polls fires, starting from flag `reminded`. */
  function FireCount(reminded: bool, polls: seq<int>): (n: nat)
    ensures n <= |polls|
    ensures reminded && (forall i :: 0 <= i < |polls| ==> ReminderStart <= polls[i]) ==> n == 0
    decreases |polls|
  {
    if polls == [] then 0
    else
      var p := Step(reminded, polls[0]);
      (if p.fire then 1 else 0) + FireCount(p.reminded, polls[1..])
  }

  /** The flag after a run of polls. */
  function FlagAfter(reminded: bool, polls: seq<int>): bool
    decreases |polls|
  {
    if polls == [] then reminded else FlagAfter(Step(reminded, polls[0]).reminded, polls[1..])
  }

  predicate NonDecreasing(polls: seq<int>) {
    forall i, j :: 0 <= i < j < |polls| ==> polls[i] <= polls[j]
  }

  /** Within one day the clock only moves forward, so the sweep fires at most
      once, and it fires exactly when the start is reached while the flag is
      clear (or was cleared by an earlier poll of that day). */
  lemma {:induction false} FiresAtMostOnceADay(reminded: bool, polls: seq<int>)
    requires NonDecreasing(polls)
    ensures FireCount(reminded, polls) <= 1
    ensures FireCount(reminded, polls) == 1 <==>
              (|polls| > 0 && ReminderStart <= polls[|polls| - 1]
               && (!reminded || polls[0] < ReminderStart))
    decreases |polls|
  {
    if polls != [] {
      var rest := polls[1..];
      assert NonDecreasing(rest);
      FiresAtMostOnceADay(Step(reminded, polls[0]).reminded, rest);
      if ReminderStart <= polls[0] && rest != [] {
        assert polls[0] <= rest[0];
      }
      if rest != [] {
        assert rest[|rest| - 1] == polls[|polls| - 1];
      }
    }
  }

  /** The flag after a poll that reached the start stays set for the rest of
      the day, and any poll before the start clears it. */
  lemma {:induction false} FlagAfterDay(reminded: bool, polls: seq<int>)
    requires polls != []
    ensures FlagAfter(reminded, polls) <==> ReminderStart <= polls[|polls| - 1]
    decreases |polls|
  {
    if |polls| > 1 {
      FlagAfterDay(Step(reminded, polls[0]).reminded, polls[1..]);
      assert polls[1..][|polls| - 2] == polls[|polls| - 1];
    }
  }

  lemma {:induction false} FireCountAppend(reminded: bool, a: seq<int>, b: seq<int>)
    ensures FireCount(reminded, a + b) == FireCount(reminded, a) + FireCount(FlagAfter(reminded, a), b)
    decreases |a|
  {
    if a != [] {
      assert (a + b)[0] == a[0];
      assert (a + b)[1..] == a[1..] + b;
      FireCountAppend(Step(reminded, a[0]).reminded, a[1..], b);
    } else {
      assert a + b == b;
    }
  }

  function Concat(days: seq<seq<int>>): seq<int> {
    if days == [] then [] else days[0] + Concat(days[1..])
  }

  /** A polled calendar day: the clock moves forward, some poll comes before
      the start and some at or after it. */
  predicate FullDay(polls: seq<int>) {
    NonDecreasing(polls) && |polls| > 0 && polls[0] < ReminderStart
    && ReminderStart <= polls[|polls| - 1]
  }

  /** Over consecutive days the sweep fires once per day, never twice and
      never skipping a day that was polled both before and after the start. */
  lemma {:induction false} FiresOncePerDay(reminded: bool, days: seq<seq<int>>)
    requires forall d :: 0 <= d < |days| ==> FullDay(days[d])
    ensures FireCount(reminded, Concat(days)) == |days|
    decreases |days|
  {
    if days != [] {
      FireCountAppend(reminded, days[0], Concat(days[1..]));
      FiresAtMostOnceADay(reminded, days[0]);
      FiresOncePerDay(FlagAfter(reminded, days[0]), days[1..]);
    }
  }

  /** A restart clears the flag, so two processes polled after the start on
      the same day each fire the sweep, where one process fires it once. */
  lemma RestartSweepsTwice(first: int, second: int)
    requires ReminderStart <= first <= second
    ensures FireCount(false, [first, second]) == 1
    ensures FireCount(false, [first]) + FireCount(false, [second]) == 2
  {
    assert [first, second][1..] == [second];
    assert Step(false, first).reminded;
    assert FireCount(true, [second]) == 0;
  }

  /** Without any assumption on the first poll, a run of days never fires
      more sweeps than there are days. */
  lemma {:induction false} FiresAtMostOncePerDayOverDays(reminded: bool, days: seq<seq<int>>)
    requires forall d :: 0 <= d < |days| ==> NonDecreasing(days[d])
    ensures FireCount(reminded, Concat(days)) <= |days|
    decreases |days|
  {
    if days != [] {
      FireCountAppend(reminded, days[0], Concat(days[1..]));
      FiresAtMostOnceADay(reminded, days[0]);
      FiresAtMostOncePerDayOverDays(FlagAfter(reminded, days[0]), days[1..]);
    }
  }
}
