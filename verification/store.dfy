/** The task store: the mutations tasks.js applies to its `tasks` array when a
    task is created, ticked off or deleted. Each returns the new array; the
    `saveTasks` call that follows every mutation persists it whole. */
module Store {
  import opened Seqs
  import opened Text
  import opened Classifier
  import opened Tasks

  /** Submitting the add-task form. The text and notes are trimmed; a text
      that is empty after trimming adds nothing, otherwise a new incomplete
      task with the given id (`Date.now()` in tasks.js) goes to the end. */
  function Create(tasks: seq<Task>, id: int, text: string, dueDate: DueDate, notes: string): (r: seq<Task>)
    ensures AllTrimmable(text) ==> r == tasks
    ensures !AllTrimmable(text) ==>
      && |r| == |tasks| + 1
      && r[..|tasks|] == tasks
      && r[|tasks|].id == id
      && r[|tasks|].text == Trim(text) && r[|tasks|].text != []
      && r[|tasks|].dueDate == dueDate
      && r[|tasks|].notes == Trim(notes)
      && !r[|tasks|].completed
  {
    var t := Trim(text);
    if t == [] then tasks
    else tasks + [Task(id, t, dueDate, Trim(notes), false)]
  }

  /** The complete button: flips `completed` of the task with that id and of
      nothing else; every other field and the order stay as they are. */
  function Toggle(tasks: seq<Task>, id: int): (r: seq<Task>)
    ensures |r| == |tasks|
    ensures forall i :: 0 <= i < |r| ==>
      && r[i].id == tasks[i].id
      && r[i].text == tasks[i].text
      && r[i].dueDate == tasks[i].dueDate
      && r[i].notes == tasks[i].notes
      && (r[i].completed != tasks[i].completed <==> tasks[i].id == id)
  {
    seq(|tasks|, i requires 0 <= i < |tasks| =>
      if tasks[i].id == id then tasks[i].(completed := !tasks[i].completed) else tasks[i])
  }

  /** The predicate `t => t.id !== id` of the delete handler's filter. */
  function Keeps(id: int): Task -> bool {
    (t: Task) => t.id != id
  }

  /** The delete button: keeps every task whose id differs, in order. */
  function Delete(tasks: seq<Task>, id: int): (r: seq<Task>)
    ensures !HasId(r, id)
    ensures forall t :: t in r <==> t in tasks && t.id != id
    ensures |r| <= |tasks|
  {
    var r := Filter(tasks, Keeps(id));
    forall t | t in r || t in tasks
      ensures t in r <==> t in tasks && t.id != id
    {
      FilterMember(tasks, Keeps(id), t);
    }
    r
  }

  /** Toggling the same id twice restores the list. */
  lemma ToggleTwice(tasks: seq<Task>, id: int)
    ensures Toggle(Toggle(tasks, id), id) == tasks
  {
    var r := Toggle(Toggle(tasks, id), id);
    forall i | 0 <= i < |tasks|
      ensures r[i] == tasks[i]
    {
    }
  }

  /** With unique ids, toggling changes exactly the one task carrying the id,
      and toggling an id nobody carries changes nothing. */
  lemma ToggleOne(tasks: seq<Task>, id: int, k: int)
    requires UniqueIds(tasks) && 0 <= k < |tasks| && tasks[k].id == id
    ensures Toggle(tasks, id)[k] == tasks[k].(completed := !tasks[k].completed)
    ensures forall i :: 0 <= i < |tasks| && i != k ==> Toggle(tasks, id)[i] == tasks[i]
  {
  }

  lemma ToggleAbsent(tasks: seq<Task>, id: int)
    requires !HasId(tasks, id)
    ensures Toggle(tasks, id) == tasks
  {
    var r := Toggle(tasks, id);
    forall i | 0 <= i < |tasks|
      ensures r[i] == tasks[i]
    {
    }
  }

  /** Toggling keeps the ids, so it keeps them unique. */
  lemma ToggleKeepsUniqueIds(tasks: seq<Task>, id: int)
    requires UniqueIds(tasks)
    ensures UniqueIds(Toggle(tasks, id))
  {
  }

  /** Creating with an id no task carries keeps ids unique. */
  lemma CreateKeepsUniqueIds(tasks: seq<Task>, id: int, text: string, dueDate: DueDate, notes: string)
    requires UniqueIds(tasks) && !HasId(tasks, id)
    ensures UniqueIds(Create(tasks, id, text, dueDate, notes))
  {
  }

  /** Deleting an id nobody carries changes nothing. */
  lemma DeleteAbsent(tasks: seq<Task>, id: int)
    requires !HasId(tasks, id)
    ensures Delete(tasks, id) == tasks
  {
    FilterAll(tasks, Keeps(id));
  }

  /** With unique ids, deleting removes exactly the one task with that id and
      leaves the others in their order. */
  lemma DeleteOne(tasks: seq<Task>, id: int, k: int)
    requires UniqueIds(tasks) && 0 <= k < |tasks| && tasks[k].id == id
    ensures Delete(tasks, id) == tasks[..k] + tasks[k + 1..]
  {
    FilterDropsOne(tasks, Keeps(id), k);
  }

  /** Two tasks that survive a delete keep their relative order. */
  lemma DeleteKeepsOrder(tasks: seq<Task>, id: int, i: int, j: int)
    requires 0 <= i < j < |tasks| && tasks[i].id != id && tasks[j].id != id
    ensures exists k, l :: 0 <= k < l < |Delete(tasks, id)|
              && Delete(tasks, id)[k] == tasks[i] && Delete(tasks, id)[l] == tasks[j]
  {
    assert Delete(tasks, id) == Filter(tasks, Keeps(id));
    FilterKeepsOrder(tasks, Keeps(id), i, j);
  }

  /** Deleting a task keeps ids unique. */
  lemma DeleteKeepsUniqueIds(tasks: seq<Task>, id: int)
    requires UniqueIds(tasks)
    ensures UniqueIds(Delete(tasks, id))
  {
    var r := Delete(tasks, id);
    var idx := FilterIndices(tasks, Keeps(id));
    forall k, l | 0 <= k < l < |r|
      ensures r[k].id != r[l].id
    {
      assert idx[k] < idx[l];
    }
  }

  /** Deleting a freshly created task undoes the creation. */
  lemma DeleteUndoesCreate(tasks: seq<Task>, id: int, text: string, dueDate: DueDate, notes: string)
    requires !HasId(tasks, id)
    ensures Delete(Create(tasks, id, text, dueDate, notes), id) == tasks
  {
    var c := Create(tasks, id, text, dueDate, notes);
    if AllTrimmable(text) {
      DeleteAbsent(tasks, id);
    } else {
      FilterDropsOne(c, Keeps(id), |tasks|);
      assert c[..|tasks|] == tasks;
    }
  }
}
