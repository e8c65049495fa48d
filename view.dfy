/**
 * The view/controller half of the script without the DOM: what the page load
 * renders, what the add button creates, and what the complete/undo and delete
 * buttons change in the task they belong to and in the store.
 */
module View {
  import opened Text
  import opened Tasks
  import opened Storage

  /** Text of a task's complete/undo button. */
  function Label(completed: bool): (r: string)
    ensures r == "Undo" <==> completed
    ensures r == "Complete" <==> !completed
  {
    if completed then "Undo" else "Complete"
  }

  /** What `renderTask` shows of a task: the element's id, the text span and the button label. */
  datatype Item = Item(id: int, text: string, buttonText: string)

  function RenderTask(t: Task): (it: Item)
    ensures it.id == t.id && it.text == t.text
    ensures it.buttonText == Label(t.completed)
  {
    Item(t.id, t.text, Label(t.completed))
  }

  /** `renderTasksRecursively(tasks, index)`: the items it appends, in the order it appends them. */
  function Render(tasks: seq<Task>, index: nat): (r: seq<Item>)
    decreases |tasks| - index
    ensures index >= |tasks| ==> r == []
    ensures index <= |tasks| ==> |r| == |tasks| - index
    ensures forall k :: 0 <= k < |r| ==> r[k] == RenderTask(tasks[index + k])
  {
    if index >= |tasks| then [] else [RenderTask(tasks[index])] + Render(tasks, index + 1)
  }

  /** The load-time `map` with `{ ...task, text: task.text.toUpperCase() }`: only the text changes. */
  function LoadTransform(s: seq<Task>): (r: seq<Task>)
    ensures |r| == |s|
    ensures forall i :: 0 <= i < |s| ==>
              r[i].id == s[i].id && r[i].completed == s[i].completed && r[i].text == Upper(s[i].text)
  {
    if s == [] then [] else [s[0].(text := Upper(s[0].text))] + LoadTransform(s[1..])
  }

  /** Transforming a transformed collection changes nothing more. */
  lemma LoadTransformIdempotent(s: seq<Task>)
    ensures LoadTransform(LoadTransform(s)) == LoadTransform(s)
  {
    var r := LoadTransform(s);
    forall i | 0 <= i < |s| ensures LoadTransform(r)[i] == r[i] {
      UpperIdempotent(s[i].text);
    }
  }

  /** Tasks created by the add button already have upper-case text, so loading leaves them alone. */
  lemma LoadTransformKeepsUpper(s: seq<Task>)
    requires forall i :: 0 <= i < |s| ==> NoLower(s[i].text)
    ensures LoadTransform(s) == s
  {
    forall i | 0 <= i < |s| ensures LoadTransform(s)[i] == s[i] {
      UpperFixedIff(s[i].text);
    }
  }

  /** `window.onload`: read the slot (absent reads as `[]`), transform, render from index 0.
      The page shows one item per stored task, in storage order, with its text upper-cased
      and the label its completion flag calls for; an absent slot shows nothing. */
  function OnLoad(slot: Option<seq<Task>>): (r: seq<Item>)
    ensures slot.None? ==> r == []
    ensures |r| == |Stored(slot)|
    ensures forall i :: 0 <= i < |Stored(slot)| ==>
              r[i] == Item(Stored(slot)[i].id, Upper(Stored(slot)[i].text), Label(Stored(slot)[i].completed))
  {
    Render(LoadTransform(Stored(slot)), 0)
  }

  /** A stored `{ id: 1, text: "buy milk", completed: false }` is shown as `BUY MILK` with a Complete button. */
  lemma OnLoadBuyMilk()
    ensures OnLoad(Some([Task(1, "buy milk", false)])) == [Item(1, "BUY MILK", "Complete")]
  {
    assert Upper("buy milk") == "BUY MILK";
  }

  /** The validation and construction of the add handler: blank input (after trimming) makes
      no task; otherwise the task has the clock reading as id, the trimmed input upper-cased
      as text, and is not completed. */
  function NewTask(input: string, now: int): (r: Option<Task>)
    ensures r.None? <==> AllSpace(input)
    ensures r.Some? ==> r.value.id == now && r.value.text == Upper(Trim(input)) && !r.value.completed
    ensures r.Some? ==> r.value.text != [] && NoLower(r.value.text)
  {
    var taskText := Trim(input);
    if taskText == [] then None else Some(Task(now, Upper(taskText), false))
  }

  /** Input without surrounding white space is used as it is, only upper-cased. */
  lemma NewTaskOfTight(input: string, now: int)
    requires input != [] && Tight(input)
    ensures NewTask(input, now) == Some(Task(now, Upper(input), false))
  {
  }

  /** Adding `"read book"` creates the task `READ BOOK`, not completed. */
  lemma NewTaskReadBook(now: int)
    ensures NewTask("read book", now) == Some(Task(now, "READ BOOK", false))
  {
    var text := "read book";
    assert Tight(text);
    NewTaskOfTight(text, now);
    assert Upper(text) == "READ BOOK";
  }

  /** After a reload, the task object a button click persists is the upper-cased copy, so the
      first toggle of entry `k` writes the load-time transform of its text back to the store. */
  lemma ToggleAfterLoadWritesUpper(s: seq<Task>, k: int)
    requires UniqueIds(s) && 0 <= k < |s|
    ensures UpdateById(s, Toggled(LoadTransform(s)[k])) == s[k := Task(s[k].id, Upper(s[k].text), !s[k].completed)]
  {
  }

  /** A rendered list element together with the task object its two click handlers share. */
  class TaskItem {
    /** The in-memory task bound to the element. */
    var task: Task
    /** The text of the element's complete/undo button. */
    var buttonText: string

    /** `renderTask(task)`: the button reads "Undo" for a completed task and "Complete" otherwise. */
    constructor (t: Task)
      ensures task == t && buttonText == Label(t.completed)
      ensures RenderTask(task) == Item(task.id, task.text, buttonText)
    {
      task := t;
      buttonText := Label(t.completed);
    }

    /** The complete/undo click: flip `completed`, persist the task by id, relabel the button. */
    method OnComplete(store: Store)
      modifies this, store
      ensures task == Toggled(old(task))
      ensures buttonText == Label(task.completed)
      ensures Stored(store.slot) == UpdateById(old(Stored(store.slot)), task)
      ensures !HasId(old(Stored(store.slot)), task.id) ==> store.slot == old(store.slot)
    {
      task := Toggled(task);
      store.Update(task);
      buttonText := Label(task.completed);
    }

    /** The delete click: remove every stored entry with this task's id. */
    method OnDelete(store: Store)
      modifies store
      ensures store.slot == Some(RemoveId(old(Stored(store.slot)), task.id))
    {
      store.Delete(task.id);
    }
  }

  /** The add-button click: `input` is the text field's value and `now` the clock reading used as
      id. Blank input changes nothing; otherwise the new task is rendered, appended to the store
      and the field is cleared. Returns the rendered element, if any, and the field's new value. */
  method OnAdd(store: Store, input: string, now: int) returns (item: Option<TaskItem>, inputAfter: string)
    modifies store
    ensures NewTask(input, now).None? ==> item.None? && store.slot == old(store.slot) && inputAfter == input
    ensures NewTask(input, now).Some? ==>
              item.Some? && fresh(item.value) && item.value.task == NewTask(input, now).value
              && item.value.buttonText == "Complete" && inputAfter == ""
              && store.slot == Some(old(Stored(store.slot)) + [NewTask(input, now).value])
  {
    var created := NewTask(input, now);
    if created.None? {
      return None, input;
    }
    var task := created.value;
    var li := new TaskItem(task);
    store.Save(task);
    return Some(li), "";
  }

  /** Adding "read book" to an empty store and clicking its complete button leaves one stored,
      completed `READ BOOK` entry and a button labelled "Undo"; blank input adds nothing. */
  method ReadBookScenario(now: int) {
    var store := new Store(None);
    var blank := "  ";
    assert NewTask(blank, now).None? by {
      assert AllSpace(blank);
    }
    var none, field := OnAdd(store, blank, now);
    assert none.None? && Stored(store.slot) == [] && field == blank;
    var added := Task(now, "READ BOOK", false);
    NewTaskReadBook(now);
    var item, cleared := OnAdd(store, "read book", now);
    assert Stored(store.slot) == [added] && cleared == "";
    var li := item.value;
    li.OnComplete(store);
    assert li.task == added.(completed := true);
    assert FirstWithId([added], now, 0);
    assert |Stored(store.slot)| == 1 && Stored(store.slot)[0] == li.task;
    assert li.buttonText == "Undo";
  }
}
