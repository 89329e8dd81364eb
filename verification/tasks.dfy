/** The one persisted entity, a task, and the invariant the collection of
    tasks is meant to keep. */
module Tasks {
  import opened Classifier

  /** A task record as stored in the `tasks` array: `id` comes from
      `Date.now()` at creation, `text` and `notes` are trimmed form input,
      `dueDate` is the raw picker value. */
  datatype Task = Task(id: int, text: string, dueDate: DueDate, notes: string, completed: bool)

  /** No two tasks share an id. tasks.js does not enforce this (two tasks
      created in the same millisecond collide); operations that rely on it
      state it as a requirement. */
  predicate UniqueIds(tasks: seq<Task>) {
    forall i, j :: 0 <= i < j < |tasks| ==> tasks[i].id != tasks[j].id
  }

  /** Some task carries `id`. */
  predicate HasId(tasks: seq<Task>, id: int) {
    exists i :: 0 <= i < |tasks| && tasks[i].id == id
  }
}
