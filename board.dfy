/**
 * The board view of the store: the tasks grouped into one column per status,
 * and the total number of tasks.
 */
module Board {
  import opened Seqs
  import opened TaskModel

  /** The tasks of one column, in store order. */
  function Column(tasks: seq<Task>, status: Status): (r: seq<Task>)
    ensures forall i :: 0 <= i < |r| ==> r[i].status == status && r[i] in tasks
    ensures forall i :: 0 <= i < |tasks| && tasks[i].status == status ==> tasks[i] in r
  {
    Filter(tasks, (t: Task) => t.status == status)
  }

  /** `tasksByStatus`: one entry per status, each holding that column. */
  function TasksByStatus(tasks: seq<Task>): (grouped: map<Status, seq<Task>>)
    ensures grouped.Keys == {Todo, Doing, Done}
    ensures forall s, t :: s in grouped && t in grouped[s] ==> t.status == s && t in tasks
    ensures forall s, t :: s in grouped && t in tasks && t.status == s ==> t in grouped[s]
  {
    map[Todo := Column(tasks, Todo), Doing := Column(tasks, Doing), Done := Column(tasks, Done)]
  }

  /** `taskCount`: the number of tasks in the store. */
  function TaskCount(tasks: seq<Task>): (n: nat)
    ensures n == |Column(tasks, Todo)| + |Column(tasks, Doing)| + |Column(tasks, Done)|
  {
    ColumnSizesSum(tasks);
    |tasks|
  }

  /**
   * The three columns split the store: together they hold the same tasks,
   * with the same multiplicities, so every task lands in exactly one column.
   */
  lemma {:induction false} ColumnsPartition(tasks: seq<Task>)
    ensures multiset(Column(tasks, Todo)) + multiset(Column(tasks, Doing)) + multiset(Column(tasks, Done)) == multiset(tasks)
  {
    if |tasks| > 0 {
      ColumnsPartition(tasks[1..]);
      var t, rest := tasks[0], tasks[1..];
      assert multiset(tasks) == multiset{t} + multiset(rest) by {
        assert tasks == [t] + rest;
      }
      ColumnUnfold(tasks, t.status);
      assert multiset(Column(tasks, t.status)) == multiset{t} + multiset(Column(rest, t.status));
      forall s | s != t.status
        ensures Column(tasks, s) == Column(rest, s)
      {
        ColumnUnfold(tasks, s);
      }
    }
  }

  /** The column sizes add up to the number of tasks. */
  lemma ColumnSizesSum(tasks: seq<Task>)
    ensures |Column(tasks, Todo)| + |Column(tasks, Doing)| + |Column(tasks, Done)| == |tasks|
  {
    ColumnsPartition(tasks);
    assert |multiset(tasks)| == |tasks|;
  }

  lemma ColumnUnfold(tasks: seq<Task>, status: Status)
    requires |tasks| > 0
    ensures Column(tasks, status) == (if tasks[0].status == status then [tasks[0]] else []) + Column(tasks[1..], status)
  {
  }

  /** Each column keeps the store's order. */
  lemma ColumnKeepsOrder(tasks: seq<Task>, status: Status)
    ensures SubsequenceOf(Column(tasks, status), tasks)
  {
    FilterIsSubsequence(tasks, (t: Task) => t.status == status);
  }
}
