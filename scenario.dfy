/** Clients of the bot that walk through one task's life using only the
    handlers' contracts: add, list, complete twice, and delete an unknown id. */
module Scenario {
  import opened Text
  import opened Records
  import opened Listing
  import opened Sweep
  import opened Bot

  const PresentationDeadline: string := "2030-01-01 10:00"

  /** The text after `/add`, one argument as the bot's tests pass it:
      `Prepare presentation; work; 2030-01-01 10:00`. */
  const PresentationCommand: string :=
    "Prepare presentation" + ";" + " work" + ";" + " " + PresentationDeadline

  lemma StripDescription()
    ensures Strip("Prepare presentation") == "Prepare presentation"
  {
    StripPadded([], "Prepare presentation", []);
    assert [] + "Prepare presentation" + [] == "Prepare presentation";
  }

  lemma StripCategory()
    ensures Strip(" work") == "work"
  {
    StripPadded(" ", "work", []);
    assert " " + "work" + [] == " work";
  }

  lemma StripDeadline()
    ensures Strip(" " + PresentationDeadline) == PresentationDeadline
  {
    StripPadded(" ", PresentationDeadline, []);
    assert " " + PresentationDeadline + [] == " " + PresentationDeadline;
  }

  /** The command yields the three stripped fields. */
  lemma PresentationFields()
    ensures ParseAddArgs([PresentationCommand])
            == Some(AddFields("Prepare presentation", "work", PresentationDeadline))
  {
    assert Join([PresentationCommand], " ") == PresentationCommand;
    ParseAddArgsPieces([PresentationCommand], "Prepare presentation", " work", " " + PresentationDeadline);
    StripDescription();
    StripCategory();
    StripDeadline();
  }

  /** Rows that all carry `t`'s id, without repeating an id, are just `t`. */
  lemma SoleRow(rows: seq<Task>, t: Task)
    requires t in rows
    requires forall u :: u in rows ==> u.id == t.id
    requires DistinctIds(rows)
    ensures rows == [t]
  {
    var k :| 0 <= k < |rows| && rows[k] == t;
    var last := |rows| - 1;
    assert rows[0] in rows && rows[last] in rows;
    assert rows[0].id == rows[k].id == rows[last].id;
    assert 0 == k == last;
  }

  /** The only row of the table is the whole listing of its owner. */
  lemma OnlyRowListed(tasks: map<nat, Task>, n: nat, t: Task)
    requires tasks == map[t.id := t] && t.id < n
    ensures Query(tasks, n, t.owner) == [t]
  {
    SoleRow(Query(tasks, n, t.owner), t);
  }

  /** The first id, as the bot prints it and reads it back. */
  lemma FirstId()
    ensures NatToString(1) == "1" && IsDigits("1") && ParseNat("1") == 1
    ensures TaskAdded(1) == "Task 1 added successfully!"
  {
    assert NatToString(1) == [DigitChar(1)];
  }

  /** The listing of the one open task. */
  lemma RenderPresentation(t: Task)
    requires t == Task(1, t.owner, "Prepare presentation", "work", t.deadline, PresentationDeadline, false)
    ensures RenderList([t])
            == ListHeader + "\n" + "1" + ": " + "Prepare presentation" + " - " + "work" + " - " + "False"
               + " - due by " + PresentationDeadline
  {
    FirstId();
    assert RenderRows([t]) == [RenderRow(t)];
    assert Join([RenderRow(t)], "\n") == RenderRow(t);
  }

  /** The open task the presentation command creates. */
  function PresentationTask(user: int, deadline: int): Task {
    Task(1, user, "Prepare presentation", "work", deadline, PresentationDeadline, false)
  }

  /** A fresh bot given `/add` ten minutes before the deadline: task 1 is
      stored, its alarm is queued, and the reply names id 1. */
  method AddPresentation(user: int, chat: int, now: int) returns (bot: ReminderBot, reply: string)
    ensures fresh(bot) && bot.Valid()
    ensures bot.tasks == map[1 := PresentationTask(user, now + 600)] && bot.nextId == 2
    ensures bot.jobs == [Job("1", chat, user, now + 600, DueNowText("Prepare presentation"), "1")]
    ensures reply == "Task 1 added successfully!"
  {
    bot := new ReminderBot();
    var deadline := now + 600;
    var parse := (s: string) => if s == PresentationDeadline then Some(deadline) else None;
    PresentationFields();
    FirstId();
    reply := bot.AddTask(user, chat, [PresentationCommand], now, parse);
  }

  /** `/list` on that bot shows the task, open, under the header. */
  lemma ListShowsPresentation(bot: ReminderBot, user: int, deadline: int)
    requires bot.Valid()
    requires bot.tasks == map[1 := PresentationTask(user, deadline)] && bot.nextId == 2
    ensures bot.ListTasks(user)
            == ListHeader + "\n" + "1" + ": " + "Prepare presentation" + " - " + "work" + " - " + "False"
               + " - due by " + PresentationDeadline
  {
    OnlyRowListed(bot.tasks, bot.nextId, PresentationTask(user, deadline));
    RenderPresentation(PresentationTask(user, deadline));
  }

  /** `/complete 1` succeeds once and is refused the second time; the
      alarm stays queued. */
  method CompleteTwice(bot: ReminderBot, user: int, deadline: int) returns (first: string, second: string)
    requires bot.Valid()
    requires bot.tasks == map[1 := PresentationTask(user, deadline)]
    modifies bot`tasks
    ensures first == TaskCompleted && second == CompleteNotFound
    ensures bot.tasks == map[1 := PresentationTask(user, deadline).(completed := true)]
    ensures bot.jobs == old(bot.jobs)
  {
    var one := ["1"];
    assert one[0] == "1";
    FirstId();
    first := bot.MarkCompleted(user, one);
    second := bot.MarkCompleted(user, one);
  }

  /** The whole life of the task: add, list, complete twice. */
  method PresentationLifecycle(user: int, chat: int, now: int)
    returns (added: string, listing: string, first: string, second: string)
    ensures added == "Task 1 added successfully!"
    ensures listing
            == ListHeader + "\n" + "1" + ": " + "Prepare presentation" + " - " + "work" + " - " + "False"
               + " - due by " + PresentationDeadline
    ensures first == TaskCompleted && second == CompleteNotFound
  {
    var bot;
    bot, added := AddPresentation(user, chat, now);
    ListShowsPresentation(bot, user, now + 600);
    listing := bot.ListTasks(user);
    first, second := CompleteTwice(bot, user, now + 600);
  }

  /** `/delete 1` after the add removes the row and cancels its alarm. */
  method AddThenDelete(user: int, chat: int, now: int) returns (bot: ReminderBot, reply: string)
    ensures reply == TaskDeleted
    ensures bot.tasks == map[] && bot.jobs == []
  {
    bot, reply := AddPresentation(user, chat, now);
    var one := ["1"];
    assert one[0] == "1";
    FirstId();
    reply := bot.DeleteTask(user, one);
  }

  /** The only row of the table, when open and due, is the whole sweep. */
  lemma OnlyRowDue(tasks: map<nat, Task>, n: nat, t: Task, now: int)
    requires tasks == map[t.id := t] && t.id < n && InDueWindow(t, now)
    ensures DueTasks(tasks, n, now) == [t]
  {
    SoleRow(DueTasks(tasks, n, now), t);
  }

  /** A sweep ten minutes before the deadline reminds the owner once. */
  method AddThenSweep(user: int, chat: int, now: int) returns (sends: seq<Message>)
    ensures sends == [Message(user, DueSoonText("Prepare presentation"))]
  {
    var bot, reply := AddPresentation(user, chat, now);
    OnlyRowDue(bot.tasks, bot.nextId, PresentationTask(user, now + 600), now);
    sends := bot.NotifyDueTasks(now);
  }

  /** Deleting an id nobody holds changes nothing, and a non-numeric id is
      answered with the usage line. */
  method DeleteUnknown(user: int) returns (bot: ReminderBot, missing: string, malformed: string)
    ensures missing == DeleteNotFound && malformed == DeleteUsage
    ensures bot.tasks == map[] && bot.jobs == []
  {
    bot := new ReminderBot();
    missing := bot.DeleteTask(user, ["999"]);
    malformed := bot.DeleteTask(user, ["abc"]);
  }
}
