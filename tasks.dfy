/**
 * The task record and the whole-collection operations the store performs on the
 * persisted sequence: append, replace-first-by-id (lodash `findIndex`) and
 * remove-every-by-id (lodash `filter`).
 */
module Tasks {

  datatype Option<T> = None | Some(value: T)

  /** One entry of the list: its creation timestamp as id, its text and its completion flag. */
  datatype Task = Task(id: int, text: string, completed: bool)

  /** What reading the "tasks" slot yields: an absent slot reads as the empty collection (`|| []`). */
  function Stored(slot: Option<seq<Task>>): (s: seq<Task>)
    ensures slot == None ==> s == []
    ensures slot != None ==> Some(s) == slot
  {
    if slot.Some? then slot.value else []
  }

  predicate HasId(s: seq<Task>, id: int) {
    exists i :: 0 <= i < |s| && s[i].id == id
  }

  /** No two entries share an id. */
  predicate UniqueIds(s: seq<Task>) {
    forall i, j :: 0 <= i < j < |s| ==> s[i].id != s[j].id
  }

  /** `k` is the position of the first entry whose id is `id`. */
  predicate FirstWithId(s: seq<Task>, id: int, k: int) {
    0 <= k < |s| && s[k].id == id && forall j :: 0 <= j < k ==> s[j].id != id
  }

  /** lodash `findIndex(tasks, { id })`: the first matching position, or -1 when there is none. */
  function FindIndex(s: seq<Task>, id: int): (k: int)
    ensures -1 <= k < |s|
    ensures k == -1 <==> !HasId(s, id)
    ensures k != -1 ==> FirstWithId(s, id, k)
  {
    if s == [] then -1
    else if s[0].id == id then 0
    else
      var k := FindIndex(s[1..], id);
      assert HasId(s, id) ==> HasId(s[1..], id) by {
        if HasId(s, id) {
          var i :| 0 <= i < |s| && s[i].id == id;
          assert s[1..][i - 1].id == id;
        }
      }
      if k == -1 then -1 else k + 1
  }

  /** The collection after `tasks[taskIndex] = updatedTask` guarded by `taskIndex > -1`:
      only the first entry carrying `t.id` becomes `t`; without such an entry nothing changes. */
  function UpdateById(s: seq<Task>, t: Task): (r: seq<Task>)
    ensures |r| == |s|
    ensures !HasId(s, t.id) ==> r == s
    ensures forall k :: FirstWithId(s, t.id, k) ==>
              r[k] == t && forall i :: 0 <= i < |s| && i != k ==> r[i] == s[i]
  {
    var k := FindIndex(s, t.id);
    if k > -1 then s[k := t] else s
  }

  /** How many entries carry `id`. */
  function Occurrences(s: seq<Task>, id: int): (n: nat)
    ensures n <= |s|
    ensures n == 0 <==> !HasId(s, id)
  {
    if s == [] then 0
    else
      assert HasId(s, id) <==> s[0].id == id || HasId(s[1..], id) by {
        if HasId(s, id) && s[0].id != id {
          var i :| 0 <= i < |s| && s[i].id == id;
          assert s[1..][i - 1].id == id;
        }
        if HasId(s[1..], id) {
          var i :| 0 <= i < |s[1..]| && s[1..][i].id == id;
          assert s[i + 1].id == id;
        }
      }
      (if s[0].id == id then 1 else 0) + Occurrences(s[1..], id)
  }

  /** lodash `filter(tasks, task => task.id !== taskId)`: the entries with another id, in their order. */
  function RemoveId(s: seq<Task>, id: int): (r: seq<Task>)
    ensures !HasId(r, id)
    ensures forall t :: t in r <==> t in s && t.id != id
    ensures |r| == |s| - Occurrences(s, id)
  {
    if s == [] then []
    else
      assert s == [s[0]] + s[1..];
      if s[0].id == id then RemoveId(s[1..], id)
      else
        var rest := RemoveId(s[1..], id);
        assert forall i :: 0 < i < |[s[0]] + rest| ==> ([s[0]] + rest)[i] == rest[i - 1];
        [s[0]] + rest
  }

  /** Deleting an id that no entry carries leaves the collection as it was. */
  lemma {:induction false} RemoveIdAbsent(s: seq<Task>, id: int)
    requires !HasId(s, id)
    ensures RemoveId(s, id) == s
  {
    if s != [] {
      assert s[0].id != id;
      forall i | 0 <= i < |s[1..]| ensures s[1..][i].id != id {
        assert s[1..][i] == s[i + 1];
      }
      RemoveIdAbsent(s[1..], id);
      assert s == [s[0]] + s[1..];
    }
  }

  /** Deleting twice is deleting once. */
  lemma RemoveIdIdempotent(s: seq<Task>, id: int)
    ensures RemoveId(RemoveId(s, id), id) == RemoveId(s, id)
  {
    RemoveIdAbsent(RemoveId(s, id), id);
  }

  /** The filter works entry by entry, so it keeps the relative order of what it keeps. */
  lemma {:induction false} RemoveIdConcat(a: seq<Task>, b: seq<Task>, id: int)
    ensures RemoveId(a + b, id) == RemoveId(a, id) + RemoveId(b, id)
  {
    if a != [] {
      assert (a + b)[0] == a[0];
      assert (a + b)[1..] == a[1..] + b;
      RemoveIdConcat(a[1..], b, id);
    } else {
      assert a + b == b;
    }
  }

  /** With unique ids, deleting the id of entry `k` removes that entry and nothing else. */
  lemma RemoveIdUnique(s: seq<Task>, k: int)
    requires UniqueIds(s) && 0 <= k < |s|
    ensures RemoveId(s, s[k].id) == s[..k] + s[k + 1..]
    ensures |RemoveId(s, s[k].id)| == |s| - 1
  {
    var id := s[k].id;
    assert s == s[..k] + ([s[k]] + s[k + 1..]);
    forall i | 0 <= i < k ensures s[..k][i].id != id {
      assert s[..k][i] == s[i];
    }
    var after := s[k + 1..];
    forall i | 0 <= i < |after| ensures after[i].id != id {
      assert after[i] == s[k + 1 + i];
    }
    RemoveIdConcat(s[..k], [s[k]] + s[k + 1..], id);
    RemoveIdConcat([s[k]], s[k + 1..], id);
    RemoveIdAbsent(s[..k], id);
    RemoveIdAbsent(s[k + 1..], id);
    assert RemoveId([s[k]], id) == [];
  }

  /** A collection headed by `t` has unique ids exactly when its tail does and lacks `t.id`. */
  lemma UniqueCons(t: Task, s: seq<Task>)
    ensures UniqueIds([t] + s) <==> !HasId(s, t.id) && UniqueIds(s)
  {
    var r := [t] + s;
    assert forall i :: 0 <= i < |s| ==> r[i + 1] == s[i];
    if UniqueIds(r) {
      forall i | 0 <= i < |s| ensures s[i].id != t.id {
        assert r[0].id != r[i + 1].id;
      }
    }
    if !HasId(s, t.id) && UniqueIds(s) {
      forall i, j | 0 <= i < j < |r| ensures r[i].id != r[j].id {
        if i > 0 { assert r[i] == s[i - 1]; }
        assert r[j] == s[j - 1];
      }
    }
  }

  /** Filtering adds no id that was not there. */
  lemma {:induction false} RemoveIdKeepsAbsent(s: seq<Task>, id: int, x: int)
    requires !HasId(s, x)
    ensures !HasId(RemoveId(s, id), x)
  {
  }

  /** With unique ids, an id occurs once if present and not at all otherwise. */
  lemma {:induction false} OccurrencesUnique(s: seq<Task>, id: int)
    requires UniqueIds(s)
    ensures Occurrences(s, id) == if HasId(s, id) then 1 else 0
  {
    if s != [] {
      assert s == [s[0]] + s[1..];
      UniqueCons(s[0], s[1..]);
      OccurrencesUnique(s[1..], id);
    }
  }

  /** Deleting keeps ids unique. */
  lemma {:induction false} RemoveIdPreservesUnique(s: seq<Task>, id: int)
    requires UniqueIds(s)
    ensures UniqueIds(RemoveId(s, id))
  {
    if s != [] {
      var tail := s[1..];
      assert s == [s[0]] + tail;
      UniqueCons(s[0], tail);
      RemoveIdPreservesUnique(tail, id);
      if s[0].id != id {
        RemoveIdKeepsAbsent(tail, id, s[0].id);
        UniqueCons(s[0], RemoveId(tail, id));
      }
    }
  }

  /** Appending `t` keeps ids unique exactly when no entry already carries `t.id`. */
  lemma AppendUniqueIff(s: seq<Task>, t: Task)
    ensures UniqueIds(s + [t]) <==> UniqueIds(s) && !HasId(s, t.id)
  {
    var r := s + [t];
    if UniqueIds(r) {
      assert forall i :: 0 <= i < |s| ==> r[i] == s[i];
      forall i | 0 <= i < |s| ensures s[i].id != t.id {
        assert r[i] == s[i] && r[|s|] == t;
      }
    }
  }

  /** With unique ids, the first match is the only match, so updating replaces exactly that entry. */
  lemma UpdateByIdUnique(s: seq<Task>, t: Task, k: int)
    requires UniqueIds(s) && 0 <= k < |s| && s[k].id == t.id
    ensures UpdateById(s, t) == s[k := t]
  {
  }

  /** Updating keeps ids unique: the replaced entry keeps its id. */
  lemma UpdateByIdPreservesUnique(s: seq<Task>, t: Task)
    requires UniqueIds(s)
    ensures UniqueIds(UpdateById(s, t))
  {
  }

  /** Updating twice with the same record is updating once. */
  lemma UpdateByIdIdempotent(s: seq<Task>, t: Task)
    ensures UpdateById(UpdateById(s, t), t) == UpdateById(s, t)
  {
  }

  /** The complete/undo click: `task.completed = !task.completed`. */
  function Toggled(t: Task): (r: Task)
    ensures r.id == t.id && r.text == t.text && r.completed == !t.completed
  {
    t.(completed := !t.completed)
  }

  /** Two clicks restore the task. */
  lemma ToggleInvolution(t: Task)
    ensures Toggled(Toggled(t)) == t
  {
  }
}
