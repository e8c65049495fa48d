/**
 * The persisted "tasks" slot and the three whole-collection read-modify-write
 * operations over it. The slot holds the collection itself (its JSON text form
 * is not modelled); `None` is a slot that has never been written.
 */
module Storage {
  import opened Tasks

  class Store {
    /** The "tasks" key of the browser's local storage. */
    var slot: Option<seq<Task>>

    constructor (initial: Option<seq<Task>>)
      ensures slot == initial
    {
      slot := initial;
    }

    /** `saveTaskToLocalStorage`: read, push `t`, write the whole collection back. */
    method Save(t: Task)
      modifies this
      ensures slot == Some(old(Stored(slot)) + [t])
      ensures |Stored(slot)| == |old(Stored(slot))| + 1 && Stored(slot)[..|old(Stored(slot))|] == old(Stored(slot))
      ensures UniqueIds(old(Stored(slot))) && !HasId(old(Stored(slot)), t.id) ==> UniqueIds(Stored(slot))
    {
      var tasks := Stored(slot);
      tasks := tasks + [t];
      assert tasks[..|tasks| - 1] == Stored(slot);
      AppendUniqueIff(Stored(slot), t);
      slot := Some(tasks);
    }

    /** `updateTaskInLocalStorage`: replace the first entry with `t.id` by `t` and write back;
        when no entry has that id nothing is written and the slot stays as it was. */
    method Update(t: Task)
      modifies this
      ensures Stored(slot) == UpdateById(old(Stored(slot)), t)
      ensures HasId(old(Stored(slot)), t.id) ==> slot == Some(UpdateById(old(Stored(slot)), t))
      ensures !HasId(old(Stored(slot)), t.id) ==> slot == old(slot)
      ensures UniqueIds(old(Stored(slot))) ==> UniqueIds(Stored(slot))
    {
      var tasks := Stored(slot);
      if UniqueIds(tasks) {
        UpdateByIdPreservesUnique(tasks, t);
      }
      var taskIndex := FindIndex(tasks, t.id);
      if taskIndex > -1 {
        tasks := tasks[taskIndex := t];
        slot := Some(tasks);
      }
    }

    /** `deleteTaskFromLocalStorage`: keep the entries with another id and write the result
        back, also when nothing was removed (an absent slot becomes `Some([])`). */
    method Delete(id: int)
      modifies this
      ensures slot == Some(RemoveId(old(Stored(slot)), id))
      ensures !HasId(Stored(slot), id)
      ensures UniqueIds(old(Stored(slot))) ==> UniqueIds(Stored(slot))
    {
      var tasks := Stored(slot);
      if UniqueIds(tasks) {
        RemoveIdPreservesUnique(tasks, id);
      }
      var updatedTasks := RemoveId(tasks, id);
      slot := Some(updatedTasks);
    }
  }
}
