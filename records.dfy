/** The rows, job payloads and messages of the reminder bot, and the fixed
    reply texts of its commands. */
module Records {
  import opened Text

  datatype Option<T> = None | Some(value: T)

  /** One row of the `tasks` table. `deadline` is the instant the stored text
      was parsed to (local seconds); `deadlineText` is the column as stored,
      which `/list` prints back verbatim. */
  datatype Task = Task(
    id: nat,
    owner: int,
    description: string,
    category: string,
    deadline: int,
    deadlineText: string,
    completed: bool)

  /** A pending one-shot job of the job queue: the `run_once` call of `/add`
      with its name, chat, user, fire time and `data` payload. */
  datatype Job = Job(
    name: string,
    chatId: int,
    userId: int,
    fireAt: int,
    message: string,
    taskId: string)

  /** A message handed to the chat transport. */
  datatype Message = Message(chatId: int, text: string)

  /** The tasks map is keyed by each row's own id. */
  predicate WellKeyed(tasks: map<nat, Task>) {
    forall id :: id in tasks ==> tasks[id].id == id
  }

  /** Every id in the table is below `n` (the autoincrement counter). */
  predicate KeysBelow(tasks: map<nat, Task>, n: nat) {
    forall id :: id in tasks ==> id < n
  }

  /** A table scan `SELECT ... WHERE p(row)` over the ids below `n`, in
      ascending id order: each selected row appears once. */
  function Select(tasks: map<nat, Task>, n: nat, p: Task -> bool): (rows: seq<Task>)
    requires WellKeyed(tasks)
    ensures forall t :: t in rows <==> (t.id < n && t.id in tasks && tasks[t.id] == t && p(t))
    ensures forall i, j :: 0 <= i < j < |rows| ==> rows[i].id < rows[j].id
  {
    if n == 0 then []
    else
      var k := n - 1;
      Select(tasks, k, p) + (if k in tasks && p(tasks[k]) then [tasks[k]] else [])
  }

  /** The row the caller may delete: it exists and the caller owns it. */
  predicate Owns(tasks: map<nat, Task>, user: int, id: nat) {
    id in tasks && tasks[id].owner == user
  }

  /** The row the caller may complete: owned by the caller and still open. */
  predicate Completable(tasks: map<nat, Task>, user: int, id: nat) {
    Owns(tasks, user, id) && !tasks[id].completed
  }

  const AddUsage: string :=
    "Usage:\n                /add <description>; <category>; <deadline: YYYY-MM-DD HH:MM>\n                "
  const BadDateFormat: string := "Invalid date format. Use YYYY-MM-DD HH:MM."
  const DeadlineNotFuture: string := "The deadline must be in the future."

  function TaskAdded(id: nat): string {
    "Task " + NatToString(id) + " added successfully!"
  }

  const DeleteUsage: string := "Usage: /delete <task_id>"
  const DeleteNotFound: string := "Task not found or does not belong to you."
  const TaskDeleted: string := "Task deleted successfully!"

  const CompleteUsage: string := "Usage: /complete <task_id>"
  const CompleteNotFound: string := "Task not found or already completed."
  const TaskCompleted: string := "Task marked as completed successfully!"

  /** The payload of the exact-deadline alarm of a task. */
  function DueNowText(description: string): string {
    "Reminder: Your task '" + description + "' is due now!"
  }

  /** The text of the daily sweep's reminder. */
  function DueSoonText(description: string): string {
    "Reminder: Task '" + description + "' is due in 24 hours!"
  }

  /** What the `alarm` callback sends when its job fires: the stored message
      to the stored chat. */
  function Alarm(job: Job): Message {
    Message(job.chatId, job.message)
  }
}
