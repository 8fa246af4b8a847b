/** The reminder bot's command handlers over an in-memory tasks table and job
    queue: `/add`, `/delete`, `/complete`, `/list`, the exact-deadline alarm
    and the daily notifier loop. Replies and sent messages are returned. */
module Bot {
  import opened Text
  import opened Records
  import opened Listing
  import opened Sweep

  /** The three `;`-separated fields of `/add`, stripped. */
  datatype AddFields = AddFields(description: string, category: string, deadlineText: string)

  /** `" ".join(context.args).split(";")`, accepted only with exactly three
      pieces, each then stripped. */
  function ParseAddArgs(args: seq<string>): (r: Option<AddFields>)
    ensures r.Some? <==> Count(Join(args, " "), ';') == 2
  {
    var parts := Split(Join(args, " "), ';');
    if |parts| != 3 then None
    else Some(AddFields(Strip(parts[0]), Strip(parts[1]), Strip(parts[2])))
  }

  /** Whatever three `;`-free pieces the joined arguments consist of, the
      fields are those pieces stripped. */
  lemma ParseAddArgsPieces(args: seq<string>, a: string, b: string, c: string)
    requires ';' !in a && ';' !in b && ';' !in c
    requires Join(args, " ") == a + ";" + b + ";" + c
    ensures ParseAddArgs(args) == Some(AddFields(Strip(a), Strip(b), Strip(c)))
  {
    assert a + ";" + b + ";" + c == a + [';'] + (b + [';'] + c);
    SplitAtFirst(a, b + [';'] + c, ';');
    SplitAtFirst(b, c, ';');
    SplitAbsent(c, ';');
  }

  /** The job queue without the jobs named `name`, order kept. */
  function WithoutName(queue: seq<Job>, name: string): (kept: seq<Job>)
    ensures forall j :: j in kept <==> (j in queue && j.name != name)
    ensures |kept| <= |queue|
    ensures (forall k :: 0 <= k < |queue| ==> queue[k].name != name) ==> kept == queue
  {
    if queue == [] then []
    else
      var last := queue[|queue| - 1];
      assert queue == queue[..|queue| - 1] + [last];
      WithoutName(queue[..|queue| - 1], name) + (if last.name == name then [] else [last])
  }

  /** The instant `/add` schedules for: the parsed deadline of well-formed
      arguments, nothing when the arguments or the date do not parse. */
  function Deadline(args: seq<string>, parseDeadline: string -> Option<int>): (d: Option<int>)
    ensures Count(Join(args, " "), ';') != 2 ==> d.None?
  {
    match ParseAddArgs(args)
    case None => None
    case Some(f) => parseDeadline(f.deadlineText)
  }

  /** When the joined arguments are three `;`-free pieces, the instant is
      what the date parser makes of the third piece, stripped. */
  lemma DeadlineOfPieces(args: seq<string>, a: string, b: string, c: string,
                         parseDeadline: string -> Option<int>)
    requires ';' !in a && ';' !in b && ';' !in c
    requires Join(args, " ") == a + ";" + b + ";" + c
    ensures Deadline(args, parseDeadline) == parseDeadline(Strip(c))
  {
    ParseAddArgsPieces(args, a, b, c);
  }

  /** `get_jobs_by_name(name)` followed by `schedule_removal()` on each job
      found: the queue that is left. */
  method CancelJobsNamed(queue: seq<Job>, name: string) returns (kept: seq<Job>)
    ensures kept == WithoutName(queue, name)
  {
    kept := [];
    var i := 0;
    while i < |queue|
      invariant 0 <= i <= |queue|
      invariant kept == WithoutName(queue[..i], name)
    {
      assert queue[..i + 1][..i] == queue[..i];
      if queue[i].name != name {
        kept := kept + [queue[i]];
      }
      i := i + 1;
    }
    assert queue[..i] == queue;
  }


  /** The exact-deadline job names a task that still exists. */
  ghost predicate JobOfLiveTask(job: Job, tasks: map<nat, Task>) {
    exists id :: id in tasks && job.name == NatToString(id)
  }

  /** The bot's state invariant: ids are positive, below the counter and
      self-describing; every pending alarm belongs to a live task, and no
      task has two. */
  ghost predicate Consistent(tasks: map<nat, Task>, nextId: nat, jobs: seq<Job>) {
    && nextId >= 1
    && WellKeyed(tasks)
    && KeysBelow(tasks, nextId)
    && (forall id :: id in tasks ==> 1 <= id)
    && (forall k :: 0 <= k < |jobs| ==> JobOfLiveTask(jobs[k], tasks))
    && (forall k, l :: 0 <= k < l < |jobs| ==> jobs[k].name != jobs[l].name)
  }

  /** `/add`'s insert under the counter's id and its one new alarm keep the
      invariant; the id is fresh and no pending alarm already carries its name. */
  lemma InsertKeepsConsistent(tasks: map<nat, Task>, n: nat, jobs: seq<Job>, t: Task, job: Job)
    requires Consistent(tasks, n, jobs)
    requires t.id == n && job.name == NatToString(n)
    ensures n !in tasks
    ensures forall k :: 0 <= k < |jobs| ==> jobs[k].name != job.name
    ensures Consistent(tasks[n := t], n + 1, jobs + [job])
  {
    var tasks' := tasks[n := t];
    forall k | 0 <= k < |jobs|
      ensures jobs[k].name != job.name && JobOfLiveTask(jobs[k], tasks')
    {
      assert JobOfLiveTask(jobs[k], tasks);
      var other :| other in tasks && jobs[k].name == NatToString(other);
      NatToStringInjective(other, n);
      assert other in tasks';
    }
    assert n in tasks' && job.name == NatToString(n);
    var jobs' := jobs + [job];
    assert forall k :: 0 <= k < |jobs| ==> jobs'[k] == jobs[k];
  }

  /** `/delete`'s removal of a row and of every alarm named after it keeps the
      invariant. */
  lemma RemoveKeepsConsistent(tasks: map<nat, Task>, n: nat, jobs: seq<Job>, id: nat)
    requires Consistent(tasks, n, jobs)
    ensures Consistent(tasks - {id}, n, WithoutName(jobs, NatToString(id)))
  {
    var tasks' := tasks - {id};
    var name := NatToString(id);
    var kept := WithoutName(jobs, name);
    forall k | 0 <= k < |kept|
      ensures JobOfLiveTask(kept[k], tasks')
    {
      assert kept[k] in jobs;
      var i :| 0 <= i < |jobs| && jobs[i] == kept[k];
      var other :| other in tasks && kept[k].name == NatToString(other);
      NatToStringInjective(other, id);
      assert other in tasks';
    }
    forall k, l | 0 <= k < l < |kept|
      ensures kept[k].name != kept[l].name
    {
      KeptNamesDistinct(jobs, name, k, l);
    }
  }

  /** `/complete`'s in-place update of an existing row keeps the invariant. */
  lemma UpdateKeepsConsistent(tasks: map<nat, Task>, n: nat, jobs: seq<Job>, id: nat, t: Task)
    requires Consistent(tasks, n, jobs)
    requires id in tasks && t.id == id
    ensures Consistent(tasks[id := t], n, jobs)
  {
    var tasks' := tasks[id := t];
    forall k | 0 <= k < |jobs|
      ensures JobOfLiveTask(jobs[k], tasks')
    {
      var other :| other in tasks && jobs[k].name == NatToString(other);
      assert other in tasks';
    }
  }

  /** A fired job leaves the queue and keeps the invariant; since names are
      unique, no job for its task is left to fire again. */
  lemma DropJobKeepsConsistent(tasks: map<nat, Task>, n: nat, jobs: seq<Job>, k: nat)
    requires Consistent(tasks, n, jobs)
    requires k < |jobs|
    ensures Consistent(tasks, n, jobs[..k] + jobs[k + 1..])
    ensures forall j :: j in jobs[..k] + jobs[k + 1..] ==> j.name != jobs[k].name
  {
    var rest := jobs[..k] + jobs[k + 1..];
    assert forall l :: 0 <= l < |rest| ==> rest[l] == jobs[if l < k then l else l + 1];
  }

  class ReminderBot {
    /** The `tasks` table, keyed by its autoincrement id. */
    var tasks: map<nat, Task>
    /** The id the next insert receives. */
    var nextId: nat
    /** The job queue's pending one-shot alarms. */
    var jobs: seq<Job>
    /** `reminded_today` of the notifier loop. */
    var remindedToday: bool

    ghost predicate Valid()
      reads this
    {
      Consistent(tasks, nextId, jobs)
    }

    /** A freshly created table, an empty job queue, and the notifier not yet
        reminded. */
    constructor ()
      ensures Valid()
      ensures tasks == map[] && nextId == 1 && jobs == [] && !remindedToday
    {
      tasks := map[];
      nextId := 1;
      jobs := [];
      remindedToday := false;
    }

    /** A restart of the process over an existing database: `init_db` keeps
        the table and its autoincrement counter, while the in-memory job
        queue starts empty and `reminded_today` starts false. */
    constructor Restart(table: map<nat, Task>, counter: nat)
      requires Consistent(table, counter, [])
      ensures Valid()
      ensures tasks == table && nextId == counter && jobs == [] && !remindedToday
    {
      tasks := table;
      nextId := counter;
      jobs := [];
      remindedToday := false;
    }

    /** `/add <description>; <category>; <deadline>` from `user` in `chat` at
        time `now`; `parseDeadline` stands for `strptime`. */
    method AddTask(user: int, chat: int, args: seq<string>, now: int, parseDeadline: string -> Option<int>)
      returns (reply: string)
      requires Valid()
      modifies this`tasks, this`nextId, this`jobs
      ensures Valid()
      ensures ParseAddArgs(args).None? ==> reply == AddUsage && unchanged(this)
      ensures ParseAddArgs(args).Some? && parseDeadline(ParseAddArgs(args).value.deadlineText).None? ==>
                reply == BadDateFormat && unchanged(this)
      ensures Deadline(args, parseDeadline).Some? && Deadline(args, parseDeadline).value <= now ==>
                reply == DeadlineNotFuture && unchanged(this)
      ensures Deadline(args, parseDeadline).Some? && Deadline(args, parseDeadline).value > now ==>
                var f, d, id := ParseAddArgs(args).value, Deadline(args, parseDeadline).value, old(nextId);
                && id !in old(tasks)
                && tasks == old(tasks)[id := Task(id, user, f.description, f.category, d, f.deadlineText, false)]
                && nextId == id + 1
                && jobs == old(jobs) + [Job(NatToString(id), chat, user, d, DueNowText(f.description), NatToString(id))]
                && (forall k :: 0 <= k < |old(jobs)| ==> old(jobs)[k].name != NatToString(id))
                && reply == TaskAdded(id)
    {
      var fields := ParseAddArgs(args);
      if fields.None? {
        reply := AddUsage;
        return;
      }
      var f := fields.value;
      var parsed := parseDeadline(f.deadlineText);
      if parsed.None? {
        reply := BadDateFormat;
        return;
      }
      var deadline := parsed.value;
      if deadline <= now {
        reply := DeadlineNotFuture;
        return;
      }
      var due := deadline - now;

      var id := nextId;
      var task := Task(id, user, f.description, f.category, deadline, f.deadlineText, false);
      var fireAt := now + due;
      assert fireAt == deadline;
      var job := Job(NatToString(id), chat, user, fireAt, DueNowText(f.description), NatToString(id));
      InsertWithAlarm(task, job);
      reply := TaskAdded(id);
    }

    /** The `INSERT` under the autoincrement id followed by `run_once`: the
        row goes in under a fresh id and its alarm joins the queue. */
    method InsertWithAlarm(task: Task, job: Job)
      requires Valid()
      requires task.id == nextId && job.name == NatToString(nextId)
      modifies this`tasks, this`nextId, this`jobs
      ensures Valid()
      ensures old(nextId) !in old(tasks)
      ensures tasks == old(tasks)[old(nextId) := task] && nextId == old(nextId) + 1
      ensures jobs == old(jobs) + [job]
      ensures forall k :: 0 <= k < |old(jobs)| ==> old(jobs)[k].name != job.name
    {
      InsertKeepsConsistent(tasks, nextId, jobs, task, job);
      tasks := tasks[nextId := task];
      nextId := nextId + 1;
      jobs := jobs + [job];
    }

    /** `/delete <task_id>` from `user`. */
    method DeleteTask(user: int, args: seq<string>) returns (reply: string)
      requires Valid()
      modifies this`tasks, this`jobs
      ensures Valid()
      ensures !(|args| > 0 && IsDigits(args[0])) ==> reply == DeleteUsage && unchanged(this)
      ensures |args| > 0 && IsDigits(args[0]) ==>
        var id := ParseNat(args[0]);
        if Owns(old(tasks), user, id) then
          && reply == TaskDeleted
          && tasks == old(tasks) - {id}
          && jobs == WithoutName(old(jobs), NatToString(id))
          && (forall k :: 0 <= k < |jobs| ==> jobs[k].name != NatToString(id))
          && !Owns(tasks, user, id)
        else
          reply == DeleteNotFound && unchanged(this)
    {
      if |args| == 0 || !IsDigits(args[0]) {
        reply := DeleteUsage;
        return;
      }
      var id := ParseNat(args[0]);
      if !Owns(tasks, user, id) {
        reply := DeleteNotFound;
        return;
      }
      RemoveKeepsConsistent(tasks, nextId, jobs, id);
      tasks := tasks - {id};
      jobs := CancelJobsNamed(jobs, NatToString(id));
      reply := TaskDeleted;
    }

    /** `/complete <task_id>` from `user`. */
    method MarkCompleted(user: int, args: seq<string>) returns (reply: string)
      requires Valid()
      modifies this`tasks
      ensures Valid()
      ensures !(|args| > 0 && IsDigits(args[0])) ==> reply == CompleteUsage && unchanged(this)
      ensures |args| > 0 && IsDigits(args[0]) ==>
        var id := ParseNat(args[0]);
        if Completable(old(tasks), user, id) then
          && reply == TaskCompleted
          && tasks == old(tasks)[id := old(tasks)[id].(completed := true)]
          && !Completable(tasks, user, id)
        else
          reply == CompleteNotFound && unchanged(this)
    {
      if |args| == 0 || !IsDigits(args[0]) {
        reply := CompleteUsage;
        return;
      }
      var id := ParseNat(args[0]);
      if !Completable(tasks, user, id) {
        reply := CompleteNotFound;
        return;
      }
      var done := tasks[id].(completed := true);
      UpdateKeepsConsistent(tasks, nextId, jobs, id, done);
      tasks := tasks[id := done];
      reply := TaskCompleted;
    }

    /** `/list` from `user`: the reply, computed from the table without
        changing it. */
    function ListTasks(user: int): (reply: string)
      reads this
      requires Valid()
      ensures reply == NoTasks <==> (forall id :: id in tasks ==> tasks[id].owner != user)
    {
      var rows := Query(tasks, nextId, user);
      assert forall id :: id in tasks && tasks[id].owner == user ==> tasks[id] in rows;
      RenderList(rows)
    }

    /** `notify_due_tasks`: one reminder per due row, in fetch order. */
    method NotifyDueTasks(now: int) returns (sends: seq<Message>)
      requires Valid()
      ensures sends == Reminders(DueTasks(tasks, nextId, now))
    {
      var due := DueTasks(tasks, nextId, now);
      sends := [];
      var i := 0;
      while i < |due|
        invariant 0 <= i <= |due|
        invariant sends == Reminders(due[..i])
      {
        assert due[..i + 1][..i] == due[..i];
        sends := sends + [DueReminder(due[i])];
        i := i + 1;
      }
      assert due[..i] == due;
    }

    /** One iteration of `run_notifiers` at local time `now`. */
    method RunNotifiersStep(now: int) returns (sends: seq<Message>)
      requires Valid()
      modifies this`remindedToday
      ensures Valid()
      ensures var p := Step(old(remindedToday), TimeOfDay(now));
              && remindedToday == p.reminded
              && sends == (if p.fire then Reminders(DueTasks(tasks, nextId, now)) else [])
    {
      var reminderStart := now - TimeOfDay(now) + ReminderStart;
      // Today's start is `reminderStart`, so the comparison only depends on the time of day.
      assert (reminderStart <= now) <==> ReminderStart <= TimeOfDay(now);
      if reminderStart <= now && !remindedToday {
        remindedToday := true;
        sends := NotifyDueTasks(now);
      } else if reminderStart > now {
        remindedToday := false;
        sends := [];
      } else {
        sends := [];
      }
    }

    /** The job queue runs the due job at position `k`: `alarm` sends its
        stored message to its stored chat and the job leaves the queue, so
        no job for that task remains. */
    method FireJob(k: nat, now: int) returns (sent: Message)
      requires Valid()
      requires k < |jobs| && jobs[k].fireAt <= now
      modifies this`jobs
      ensures Valid()
      ensures sent == Message(old(jobs)[k].chatId, old(jobs)[k].message)
      ensures jobs == old(jobs)[..k] + old(jobs)[k + 1..]
      ensures forall l :: 0 <= l < |jobs| ==> jobs[l].name != old(jobs)[k].name
    {
      sent := Alarm(jobs[k]);
      DropJobKeepsConsistent(tasks, nextId, jobs, k);
      jobs := jobs[..k] + jobs[k + 1..];
    }
  }

  /** Two kept jobs come from two distinct positions of the original queue. */
  lemma {:induction false} KeptNamesDistinct(queue: seq<Job>, name: string, k: nat, l: nat)
    requires (forall a, b :: 0 <= a < b < |queue| ==> queue[a].name != queue[b].name)
    requires k < l < |WithoutName(queue, name)|
    ensures WithoutName(queue, name)[k].name != WithoutName(queue, name)[l].name
    decreases |queue|
  {
    var kept := WithoutName(queue, name);
    var init := queue[..|queue| - 1];
    var last := queue[|queue| - 1];
    var front := WithoutName(init, name);
    assert kept == front + (if last.name == name then [] else [last]);
    if l < |front| {
      KeptNamesDistinct(init, name, k, l);
    } else {
      assert kept[l] == last;
      assert kept[k] in init;
      var i :| 0 <= i < |init| && init[i] == kept[k];
    }
  }
}
