/**
 * The tasks store: the list of tasks shown on the board and the flag saying
 * whether the first load from storage has happened. Its actions create,
 * update, remove and move tasks. The clock and the id generator are
 * parameters (`now`, `id`).
 */
module TasksStore {
  import opened Wrappers
  import opened Seqs
  import opened TaskModel

  /** `tasks.findIndex(t => t.id === id)`: the first position holding `id`, or `None` for -1. */
  function FindIndex(tasks: seq<Task>, id: string): (r: Option<nat>)
    ensures r.Some? ==> r.value < |tasks| && tasks[r.value].id == id
    ensures r.Some? ==> forall j :: 0 <= j < r.value ==> tasks[j].id != id
    ensures r.None? ==> forall j :: 0 <= j < |tasks| ==> tasks[j].id != id
  {
    if |tasks| == 0 then None
    else if tasks[0].id == id then Some(0)
    else
      match FindIndex(tasks[1..], id)
      case None => None
      case Some(k) => Some(k + 1)
  }

  /** Ids are pairwise distinct: the invariant the store keeps when fresh ids are supplied. */
  predicate UniqueIds(tasks: seq<Task>) {
    forall i, j :: 0 <= i < j < |tasks| ==> tasks[i].id != tasks[j].id
  }

  predicate HasId(tasks: seq<Task>, id: string) {
    exists i :: 0 <= i < |tasks| && tasks[i].id == id
  }

  /** `{ ...existing, ...input, updatedAt }`: the editable fields replaced, id, column and creation time kept. */
  function Revised(existing: Task, input: TaskInput, now: string): (r: Task)
    ensures r.id == existing.id && r.status == existing.status && r.createdAt == existing.createdAt
    ensures r.input == input && r.updatedAt == now
  {
    existing.(input := input, updatedAt := now)
  }

  /** The task after `task.status = status; task.updatedAt = now`. */
  function Relabeled(existing: Task, status: Status, now: string): (r: Task)
    ensures r.id == existing.id && r.input == existing.input && r.createdAt == existing.createdAt
    ensures r.status == status && r.updatedAt == now
  {
    existing.(status := status, updatedAt := now)
  }

  /** `[...s.slice(0, k), x, ...s.slice(k + 1)]`. */
  function ReplaceAt(s: seq<Task>, k: nat, x: Task): (r: seq<Task>)
    requires k < |s|
    ensures |r| == |s| && r[k] == x
    ensures forall j :: 0 <= j < |s| && j != k ==> r[j] == s[j]
  {
    s[..k] + [x] + s[k + 1..]
  }

  /** `tasks.filter(t => t.id !== id)`. */
  function WithoutId(tasks: seq<Task>, id: string): (r: seq<Task>)
    ensures !HasId(r, id)
    ensures forall j :: 0 <= j < |tasks| && tasks[j].id != id ==> tasks[j] in r
    ensures forall t :: t in r ==> t in tasks
  {
    Filter(tasks, (t: Task) => t.id != id)
  }

  class Store {
    var tasks: seq<Task>
    var hydrated: bool

    /** The initial state: no tasks, not yet hydrated. */
    constructor()
      ensures tasks == [] && !hydrated
    {
      tasks := [];
      hydrated := false;
    }

    /** Replaces the whole list (the loaded data). */
    method Hydrate(loaded: seq<Task>)
      modifies this
      ensures tasks == loaded && hydrated == old(hydrated)
    {
      tasks := loaded;
    }

    method SetHydrated(value: bool)
      modifies this
      ensures hydrated == value && tasks == old(tasks)
    {
      hydrated := value;
    }

    /** Creates the task from the draft and puts it at the front of the list. */
    method AddTask(draft: TaskDraft, id: string, now: string) returns (task: Task)
      modifies this
      ensures task == CreateTask(draft, id, now)
      ensures tasks == [task] + old(tasks) && hydrated == old(hydrated)
      ensures UniqueIds(old(tasks)) && !HasId(old(tasks), id) ==> UniqueIds(tasks)
    {
      task := CreateTask(draft, id, now);
      AddKeepsUniqueIds(tasks, task);
      tasks := [task] + tasks;
    }

    /**
     * Replaces the editable fields of the first task with this id. An unknown
     * id gives `None` and leaves the list alone.
     */
    method UpdateTask(id: string, input: TaskInput, now: string) returns (r: Option<Task>)
      modifies this
      ensures hydrated == old(hydrated)
      ensures FindIndex(old(tasks), id).None? ==> r.None? && tasks == old(tasks)
      ensures FindIndex(old(tasks), id).Some? ==>
        var k := FindIndex(old(tasks), id).value;
        r == Some(Revised(old(tasks)[k], input, now)) && tasks == ReplaceAt(old(tasks), k, r.value)
      ensures UniqueIds(old(tasks)) ==> UniqueIds(tasks)
    {
      var index := FindIndex(tasks, id);
      if index.None? {
        return None;
      }
      var k := index.value;
      var updated := Revised(tasks[k], input, now);
      ReplaceKeepsUniqueIds(tasks, k, updated);
      tasks := ReplaceAt(tasks, k, updated);
      r := Some(updated);
    }

    /** Drops every task with this id. */
    method RemoveTask(id: string)
      modifies this
      ensures tasks == WithoutId(old(tasks), id) && hydrated == old(hydrated)
      ensures UniqueIds(old(tasks)) ==> UniqueIds(tasks)
    {
      RemoveKeepsUniqueIds(tasks, id);
      tasks := WithoutId(tasks, id);
    }

    /**
     * Moves the first task with this id to another column. Reports `false`,
     * changing nothing, when the id is unknown or the task is already there.
     */
    method MoveTask(id: string, status: Status, now: string) returns (changed: bool)
      modifies this
      ensures hydrated == old(hydrated)
      ensures changed <==> FindIndex(old(tasks), id).Some? && old(tasks)[FindIndex(old(tasks), id).value].status != status
      ensures !changed ==> tasks == old(tasks)
      ensures changed ==>
        var k := FindIndex(old(tasks), id).value;
        tasks == ReplaceAt(old(tasks), k, Relabeled(old(tasks)[k], status, now))
      ensures UniqueIds(old(tasks)) ==> UniqueIds(tasks)
    {
      var index := FindIndex(tasks, id);
      if index.None? || tasks[index.value].status == status {
        return false;
      }
      var k := index.value;
      var moved := Relabeled(tasks[k], status, now);
      ReplaceKeepsUniqueIds(tasks, k, moved);
      tasks := ReplaceAt(tasks, k, moved);
      changed := true;
    }
  }

  /** A task with a fresh id put in front keeps the ids distinct. */
  lemma AddKeepsUniqueIds(tasks: seq<Task>, task: Task)
    ensures UniqueIds(tasks) && !HasId(tasks, task.id) ==> UniqueIds([task] + tasks)
  {
    if UniqueIds(tasks) && !HasId(tasks, task.id) {
      var s := [task] + tasks;
      forall i, j | 0 <= i < j < |s|
        ensures s[i].id != s[j].id
      {
        assert s[j] == tasks[j - 1];
        if i > 0 {
          assert s[i] == tasks[i - 1];
        }
      }
    }
  }

  /** Replacing a task by one with the same id keeps the ids distinct. */
  lemma ReplaceKeepsUniqueIds(tasks: seq<Task>, k: nat, x: Task)
    requires k < |tasks| && x.id == tasks[k].id
    ensures UniqueIds(tasks) ==> UniqueIds(ReplaceAt(tasks, k, x))
  {
  }

  /** Deleting tasks keeps the ids distinct. */
  lemma {:induction false} SubsequenceKeepsUniqueIds(r: seq<Task>, s: seq<Task>)
    requires SubsequenceOf(r, s) && UniqueIds(s)
    ensures UniqueIds(r)
    decreases |s|
  {
    if |r| > 0 && |s| > 0 {
      assert UniqueIds(s[1..]) by {
        forall i, j | 0 <= i < j < |s[1..]| ensures s[1..][i].id != s[1..][j].id {
          assert s[1..][i] == s[i + 1] && s[1..][j] == s[j + 1];
        }
      }
      if r[0] == s[0] && SubsequenceOf(r[1..], s[1..]) {
        SubsequenceKeepsUniqueIds(r[1..], s[1..]);
        SubsequenceElements(r[1..], s[1..]);
        forall i, j | 0 <= i < j < |r| ensures r[i].id != r[j].id {
          assert r[j] == r[1..][j - 1];
          if i == 0 {
            var m :| 0 <= m < |s[1..]| && s[1..][m] == r[j];
            assert s[m + 1] == r[j];
          } else {
            assert r[i] == r[1..][i - 1];
          }
        }
      } else {
        SubsequenceKeepsUniqueIds(r, s[1..]);
      }
    }
  }

  /** Removing keeps the remaining tasks in their order. */
  lemma RemoveKeepsOrder(tasks: seq<Task>, id: string)
    ensures SubsequenceOf(WithoutId(tasks, id), tasks)
  {
    FilterIsSubsequence(tasks, (t: Task) => t.id != id);
  }

  lemma RemoveKeepsUniqueIds(tasks: seq<Task>, id: string)
    ensures UniqueIds(tasks) ==> UniqueIds(WithoutId(tasks, id))
  {
    if UniqueIds(tasks) {
      FilterIsSubsequence(tasks, (t: Task) => t.id != id);
      SubsequenceKeepsUniqueIds(WithoutId(tasks, id), tasks);
    }
  }

  /** Removing an id that is not on the board changes nothing. */
  lemma RemoveMissingIsNoOp(tasks: seq<Task>, id: string)
    requires !HasId(tasks, id)
    ensures WithoutId(tasks, id) == tasks
  {
    FilterKeepsAll(tasks, (t: Task) => t.id != id);
  }

  /** Removing a task just added with a fresh id gives back the list before the addition. */
  lemma RemoveUndoesAdd(tasks: seq<Task>, draft: TaskDraft, id: string, now: string)
    requires !HasId(tasks, id)
    ensures WithoutId([CreateTask(draft, id, now)] + tasks, id) == tasks
  {
    var s := [CreateTask(draft, id, now)] + tasks;
    assert s[1..] == tasks;
    RemoveMissingIsNoOp(tasks, id);
  }

  /** After an update the task is found at the same place and carries the new fields. */
  lemma UpdateThenFind(tasks: seq<Task>, id: string, input: TaskInput, now: string)
    requires FindIndex(tasks, id).Some?
    ensures var k := FindIndex(tasks, id).value;
      var after := ReplaceAt(tasks, k, Revised(tasks[k], input, now));
      FindIndex(after, id) == Some(k) && after[k].input == input
  {
    var k := FindIndex(tasks, id).value;
    var after := ReplaceAt(tasks, k, Revised(tasks[k], input, now));
    FindIndexAt(after, id, k);
  }

  /** A position holding `id` with no earlier occurrence is what `FindIndex` reports. */
  lemma {:induction false} FindIndexAt(tasks: seq<Task>, id: string, k: nat)
    requires k < |tasks| && tasks[k].id == id
    requires forall j :: 0 <= j < k ==> tasks[j].id != id
    ensures FindIndex(tasks, id) == Some(k)
  {
    if k > 0 {
      FindIndexAt(tasks[1..], id, k - 1);
    }
  }

  /**
   * Moving a task to a column and then moving it to the same column again
   * reports no change the second time.
   */
  lemma MoveTwiceReportsNoChange(tasks: seq<Task>, id: string, status: Status, now: string)
    requires FindIndex(tasks, id).Some?
    ensures var k := FindIndex(tasks, id).value;
      var after := ReplaceAt(tasks, k, Relabeled(tasks[k], status, now));
      FindIndex(after, id) == Some(k) && after[k].status == status
  {
    var k := FindIndex(tasks, id).value;
    FindIndexAt(ReplaceAt(tasks, k, Relabeled(tasks[k], status, now)), id, k);
  }
}
