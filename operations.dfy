/**
 * The provider's list transforms as functions of the old list: `addTask`,
 * `deleteTask`, `moveTask`, `editTask` and the list update of `handleDragOver`.
 */
module Operations {
  import opened TaskModel
  import opened TaskList

  /** `addTask`: the old list followed by the new task; the stage defaults to the first column. */
  function Added(tasks: seq<Task>, id: string, title: string, description: string,
                 stage: Stage := DefaultStage): (r: seq<Task>)
    ensures |r| == |tasks| + 1 && r[..|tasks|] == tasks
    ensures r[|tasks|] == Task(id, title, description, stage)
  {
    tasks + [Task(id, title, description, stage)]
  }

  /** `deleteTask`: the tasks whose id differs from `id`. */
  function Deleted(tasks: seq<Task>, id: string): (r: seq<Task>)
    ensures forall t :: t in r <==> t in tasks && t.id != id
  {
    Filter(tasks, IdOtherThan(id))
  }

  /** `moveTask`: every task with `id` gets `stage`; nothing else changes. */
  function Moved(tasks: seq<Task>, id: string, stage: Stage): (r: seq<Task>)
    ensures |r| == |tasks|
    ensures forall i :: 0 <= i < |tasks| ==> r[i].(stage := tasks[i].stage) == tasks[i]
    ensures forall i :: 0 <= i < |tasks| ==>
      r[i].stage == if tasks[i].id == id then stage else tasks[i].stage
  {
    seq(|tasks|, i requires 0 <= i < |tasks| =>
      if tasks[i].id == id then tasks[i].(stage := stage) else tasks[i])
  }

  /** `editTask`: every task with `id` gets the title and description; nothing else changes. */
  function Edited(tasks: seq<Task>, id: string, title: string, description: string): (r: seq<Task>)
    ensures |r| == |tasks|
    ensures forall i :: 0 <= i < |tasks| ==>
      r[i].(title := tasks[i].title, description := tasks[i].description) == tasks[i]
    ensures forall i :: 0 <= i < |tasks| && tasks[i].id == id ==>
      r[i].title == title && r[i].description == description
    ensures forall i :: 0 <= i < |tasks| && tasks[i].id != id ==> r[i] == tasks[i]
  {
    seq(|tasks|, i requires 0 <= i < |tasks| =>
      if tasks[i].id == id then tasks[i].(title := title, description := description) else tasks[i])
  }

  /**
   * The list after `handleDragOver` with the dragged task `activeId` hovering over
   * `over` (None when there is no drop target).  The cases are tried in the
   * source's order: no target; the target is the dragged task; the dragged task
   * is missing; the target is a task (reorder within a stage, or move into the
   * target's stage at the target's index); the target is another stage's column.
   */
  function DragOver(tasks: seq<Task>, activeId: string, over: Option<string>): (r: seq<Task>)
    ensures |r| == |tasks|
  {
    match over
    case None => tasks
    case Some(overId) =>
      if activeId == overId then tasks
      else
        match Find(tasks, activeId)
        case None => tasks
        case Some(active) =>
          match Find(tasks, overId)
          case Some(overTask) =>
            var taskIndex := FindIndex(tasks, activeId);
            var targetIndex := FindIndex(tasks, overId);
            if active.stage != overTask.stage then
              MoveTo(tasks, taskIndex, targetIndex, tasks[taskIndex].(stage := overTask.stage))
            else
              ArrayMove(tasks, taskIndex, targetIndex)
          case None =>
            match ParseStage(overId)
            case Some(stage) => if active.stage != stage then Moved(tasks, activeId, stage) else tasks
            case None => tasks
  }

  // ----- addTask -----

  /** A task added with a fresh id keeps the ids of the list distinct. */
  lemma AddedKeepsIdsUnique(tasks: seq<Task>, id: string, title: string, description: string, stage: Stage)
    requires UniqueIds(tasks) && id !in IdSet(tasks)
    ensures UniqueIds(Added(tasks, id, title, description, stage))
  {
    var r := Added(tasks, id, title, description, stage);
    forall i, j | 0 <= i < j < |r|
      ensures r[i].id != r[j].id
    {
      if j == |tasks| {
        assert r[i] == tasks[i] && tasks[i] in tasks;
      } else {
        assert r[i] == tasks[i] && r[j] == tasks[j];
      }
    }
  }

  /** The new task shows at the bottom of its own column; every other column is unchanged. */
  lemma AddedColumns(tasks: seq<Task>, id: string, title: string, description: string, stage: Stage, column: Stage)
    ensures StageView(Added(tasks, id, title, description, stage), column) ==
      if column == stage then StageView(tasks, column) + [Task(id, title, description, stage)]
      else StageView(tasks, column)
  {
    var t := Task(id, title, description, stage);
    FilterConcat(tasks, [t], HasStage(column));
    assert [t][..0] == [];
  }

  // ----- deleteTask -----

  /** Deletion keeps every other task, in its original relative order, and only those. */
  lemma DeletedKeepsOthersInOrder(tasks: seq<Task>, id: string)
    ensures id !in IdSet(Deleted(tasks, id))
    ensures Subsequence(Deleted(tasks, id), tasks)
  {
    FilterSubsequence(tasks, IdOtherThan(id));
  }

  /** Deleting keeps distinct ids distinct. */
  lemma {:induction false} DeletedKeepsIdsUnique(tasks: seq<Task>, id: string)
    requires UniqueIds(tasks)
    ensures UniqueIds(Deleted(tasks, id))
    decreases |tasks|
  {
    if tasks != [] {
      var n := |tasks| - 1;
      var front, t := tasks[..n], tasks[n];
      forall i, j | 0 <= i < j < n
        ensures front[i].id != front[j].id
      {
        assert front[i] == tasks[i] && front[j] == tasks[j];
      }
      DeletedKeepsIdsUnique(front, id);
      var d := Deleted(front, id);
      var r := Deleted(tasks, id);
      if t.id != id {
        assert r == d + [t];
        forall i | 0 <= i < |d|
          ensures d[i].id != t.id
        {
          assert d[i] in front;
          var k :| 0 <= k < n && front[k] == d[i];
          assert tasks[k] == d[i];
        }
        forall i, j | 0 <= i < j < |r|
          ensures r[i].id != r[j].id
        {
          if j < |d| {
            assert r[i] == d[i] && r[j] == d[j];
          } else {
            assert r[i] == d[i] && r[j] == t;
          }
        }
      } else {
        assert r == d;
      }
    }
  }

  /** Deleting an id that is not on the board leaves the list as it is. */
  lemma DeletedAbsent(tasks: seq<Task>, id: string)
    requires id !in IdSet(tasks)
    ensures Deleted(tasks, id) == tasks
  {
    FilterKeepsAll(tasks, IdOtherThan(id));
  }

  /** With distinct ids, deleting an id that is present shortens the list by exactly one. */
  lemma {:induction false} DeletedLength(tasks: seq<Task>, id: string)
    requires UniqueIds(tasks)
    ensures |Deleted(tasks, id)| == if id in IdSet(tasks) then |tasks| - 1 else |tasks|
    decreases |tasks|
  {
    if tasks != [] {
      var front, t := tasks[..|tasks| - 1], tasks[|tasks| - 1];
      assert tasks == front + [t];
      DeletedLength(front, id);
    }
  }

  /** Deletion and the column view commute: a column loses exactly the deleted task. */
  lemma DeletedColumns(tasks: seq<Task>, id: string, column: Stage)
    ensures StageView(Deleted(tasks, id), column) == Deleted(StageView(tasks, column), id)
  {
    FilterCommutes(tasks, IdOtherThan(id), HasStage(column));
  }

  // ----- moveTask -----

  /** Moving keeps the ids and their order; so distinct ids stay distinct. */
  lemma MovedKeepsIds(tasks: seq<Task>, id: string, stage: Stage)
    ensures Ids(Moved(tasks, id, stage)) == Ids(tasks)
    ensures UniqueIds(tasks) ==> UniqueIds(Moved(tasks, id, stage))
  {
  }

  /** Moving a task to the stage it already has, or moving an absent id, changes nothing; moving is idempotent. */
  lemma MovedNoOps(tasks: seq<Task>, id: string, stage: Stage)
    ensures id !in IdSet(tasks) ==> Moved(tasks, id, stage) == tasks
    ensures (forall t :: t in tasks && t.id == id ==> t.stage == stage) ==> Moved(tasks, id, stage) == tasks
    ensures Moved(Moved(tasks, id, stage), id, stage) == Moved(tasks, id, stage)
  {
    if forall t :: t in tasks && t.id == id ==> t.stage == stage {
      forall i | 0 <= i < |tasks|
        ensures Moved(tasks, id, stage)[i] == tasks[i]
      {
        assert tasks[i] in tasks;
      }
    }
  }

  /** After a move the task shows in the column of its new stage and in no other column. */
  lemma MovedColumns(tasks: seq<Task>, id: string, stage: Stage, column: Stage)
    requires id in IdSet(tasks)
    ensures id in IdSet(StageView(Moved(tasks, id, stage), column)) <==> column == stage
  {
    var r := Moved(tasks, id, stage);
    var t :| t in tasks && t.id == id;
    var i :| 0 <= i < |tasks| && tasks[i] == t;
    assert r[i] in r && r[i].id == id;
    if column == stage {
      assert r[i] in StageView(r, column);
    }
  }

  // ----- editTask -----

  /** Two lists with the same ids and stages at every index show the same ids in every column. */
  lemma {:induction false} SameShapeSameColumns(s: seq<Task>, u: seq<Task>, column: Stage)
    requires |s| == |u|
    requires forall i :: 0 <= i < |s| ==> s[i].id == u[i].id && s[i].stage == u[i].stage
    ensures Ids(StageView(s, column)) == Ids(StageView(u, column))
    decreases |s|
  {
    if s != [] {
      var n := |s| - 1;
      SameShapeSameColumns(s[..n], u[..n], column);
      var a, b := StageView(s[..n], column), StageView(u[..n], column);
      var ta := if s[n].stage == column then [s[n]] else [];
      var tb := if u[n].stage == column then [u[n]] else [];
      assert Ids(a + ta) == Ids(a) + Ids(ta);
      assert Ids(b + tb) == Ids(b) + Ids(tb);
    }
  }

  /** Editing keeps ids, stages and order: every column shows the same tasks in the same order. */
  lemma EditedKeepsIds(tasks: seq<Task>, id: string, title: string, description: string)
    ensures Ids(Edited(tasks, id, title, description)) == Ids(tasks)
    ensures UniqueIds(tasks) ==> UniqueIds(Edited(tasks, id, title, description))
  {
    var r := Edited(tasks, id, title, description);
    forall i | 0 <= i < |tasks|
      ensures r[i].id == tasks[i].id
    {
      assert r[i].(title := tasks[i].title, description := tasks[i].description) == tasks[i];
    }
  }

  lemma EditedKeepsColumns(tasks: seq<Task>, id: string, title: string, description: string, column: Stage)
    ensures Ids(StageView(Edited(tasks, id, title, description), column)) == Ids(StageView(tasks, column))
  {
    var r := Edited(tasks, id, title, description);
    forall i | 0 <= i < |tasks|
      ensures r[i].id == tasks[i].id && r[i].stage == tasks[i].stage
    {
      assert r[i].(title := tasks[i].title, description := tasks[i].description) == tasks[i];
    }
    SameShapeSameColumns(r, tasks, column);
  }

  /** Editing an absent id changes nothing. */
  lemma EditedAbsent(tasks: seq<Task>, id: string, title: string, description: string)
    requires id !in IdSet(tasks)
    ensures Edited(tasks, id, title, description) == tasks
  {
    forall i | 0 <= i < |tasks|
      ensures Edited(tasks, id, title, description)[i] == tasks[i]
    {
      assert tasks[i] in tasks;
    }
  }

  // ----- handleDragOver -----

  /** The cases in which hovering leaves the list unchanged. */
  lemma DragOverNoOps(tasks: seq<Task>, activeId: string, overId: string)
    ensures DragOver(tasks, activeId, None) == tasks
    ensures DragOver(tasks, activeId, Some(activeId)) == tasks
    ensures activeId !in IdSet(tasks) ==> DragOver(tasks, activeId, Some(overId)) == tasks
    ensures overId !in IdSet(tasks) && ParseStage(overId).None? ==>
      DragOver(tasks, activeId, Some(overId)) == tasks
    ensures (activeId in IdSet(tasks) && overId !in IdSet(tasks)
             && ParseStage(overId) == Some(Find(tasks, activeId).value.stage)) ==>
      DragOver(tasks, activeId, Some(overId)) == tasks
  {
  }

  /** The ids of a moved list are the moved ids, when the element moved keeps its id. */
  lemma IdsMoveTo(s: seq<Task>, from: nat, to: nat, x: Task)
    requires from < |s| && to < |s| && x.id == s[from].id
    ensures Ids(MoveTo(s, from, to, x)) == MoveTo(Ids(s), from, to, x.id)
  {
    var r := MoveTo(s, from, to, x);
    var a, b := Ids(r), MoveTo(Ids(s), from, to, x.id);
    forall k | 0 <= k < |s|
      ensures a[k] == b[k]
    {
      assert a[k] == r[k].id;
      if k == to {
        assert b[k] == x.id;
      } else if k < from && k < to {
        assert r[k] == s[k] && b[k] == Ids(s)[k];
      } else if k > from && k > to {
        assert r[k] == s[k] && b[k] == Ids(s)[k];
      } else if from < to {
        assert r[k] == s[k + 1] && b[k] == Ids(s)[k + 1];
      } else {
        assert r[k] == s[k - 1] && b[k] == Ids(s)[k - 1];
      }
    }
    assert a == b;
  }

  /** Removing a task keeps the ids distinct, and the removed id no longer occurs. */
  lemma RemoveAtKeepsIdsUnique(s: seq<Task>, from: nat)
    requires from < |s| && UniqueIds(s)
    ensures UniqueIds(RemoveAt(s, from))
    ensures s[from].id !in IdSet(RemoveAt(s, from))
  {
    var u := RemoveAt(s, from);
    forall i, j | 0 <= i < j < |u|
      ensures u[i].id != u[j].id
    {
      assert u[i] == s[if i < from then i else i + 1];
      assert u[j] == s[if j < from then j else j + 1];
    }
    forall t | t in u
      ensures t.id != s[from].id
    {
      var k :| 0 <= k < |u| && u[k] == t;
      assert u[k] == s[if k < from then k else k + 1];
    }
  }

  /** Inserting a task whose id does not occur keeps the ids distinct. */
  lemma InsertAtKeepsIdsUnique(u: seq<Task>, to: nat, x: Task)
    requires to <= |u| && UniqueIds(u) && x.id !in IdSet(u)
    ensures UniqueIds(InsertAt(u, to, x))
  {
    var r := InsertAt(u, to, x);
    forall i, j | 0 <= i < j < |r|
      ensures r[i].id != r[j].id
    {
      if i == to {
        assert r[j] == u[j - 1] && u[j - 1] in u;
      } else if j == to {
        assert r[i] == u[i] && u[i] in u;
      } else {
        assert r[i] == u[if i < to then i else i - 1];
        assert r[j] == u[if j < to then j else j - 1];
      }
    }
  }

  /** A single-element move that keeps the element's id keeps the ids distinct. */
  lemma MoveToKeepsIdsUnique(s: seq<Task>, from: nat, to: nat, x: Task)
    requires from < |s| && to < |s| && x.id == s[from].id
    requires UniqueIds(s)
    ensures UniqueIds(MoveTo(s, from, to, x))
  {
    RemoveAtKeepsIdsUnique(s, from);
    InsertAtKeepsIdsUnique(RemoveAt(s, from), to, x);
  }

  /** Hovering over another task is the single-element move of the dragged task, restaged to the target's stage. */
  lemma DragOverTaskIsMove(tasks: seq<Task>, activeId: string, overId: string)
    requires activeId != overId && activeId in IdSet(tasks) && overId in IdSet(tasks)
    ensures
      var i, j := FindIndex(tasks, activeId), FindIndex(tasks, overId);
      DragOver(tasks, activeId, Some(overId)) == MoveTo(tasks, i, j, tasks[i].(stage := tasks[j].stage))
  {
    var i, j := FindIndex(tasks, activeId), FindIndex(tasks, overId);
    assert Find(tasks, activeId) == Some(tasks[i]);
    assert Find(tasks, overId) == Some(tasks[j]);
    if tasks[i].stage == tasks[j].stage {
      assert tasks[i].(stage := tasks[j].stage) == tasks[i];
      assert DragOver(tasks, activeId, Some(overId)) == ArrayMove(tasks, i, j);
    } else {
      assert DragOver(tasks, activeId, Some(overId)) == MoveTo(tasks, i, j, tasks[i].(stage := tasks[j].stage));
    }
  }

  /** A single-element move that keeps the element's id permutes the ids, and keeps them distinct. */
  lemma MoveToPermutesIds(s: seq<Task>, from: nat, to: nat, x: Task)
    requires from < |s| && to < |s| && x.id == s[from].id
    ensures multiset(Ids(MoveTo(s, from, to, x))) == multiset(Ids(s))
    ensures UniqueIds(s) ==> UniqueIds(MoveTo(s, from, to, x))
  {
    IdsMoveTo(s, from, to, x);
    MoveToMultiset(Ids(s), from, to, x.id);
    if UniqueIds(s) {
      MoveToKeepsIdsUnique(s, from, to, x);
    }
  }

  /**
   * Hovering over another task: the dragged task lands at the index the target
   * had, in the target's stage; removing it from the result gives the old list
   * without it, so every other task is unchanged and keeps its relative order;
   * the ids are permuted and stay distinct if they were.
   */
  lemma DragOverTask(tasks: seq<Task>, activeId: string, overId: string)
    requires activeId != overId && activeId in IdSet(tasks) && overId in IdSet(tasks)
    ensures
      var i, j := FindIndex(tasks, activeId), FindIndex(tasks, overId);
      var r := DragOver(tasks, activeId, Some(overId));
      && |r| == |tasks|
      && r[j] == tasks[i].(stage := tasks[j].stage)
      && RemoveAt(r, j) == RemoveAt(tasks, i)
      && multiset(Ids(r)) == multiset(Ids(tasks))
      && (UniqueIds(tasks) ==> UniqueIds(r))
  {
    var i, j := FindIndex(tasks, activeId), FindIndex(tasks, overId);
    var x := tasks[i].(stage := tasks[j].stage);
    DragOverTaskIsMove(tasks, activeId, overId);
    MoveToPermutesIds(tasks, i, j, x);
  }

  /**
   * A move that gives the element the target's stage puts it right next to the
   * displaced target in the target's column: after it when it came from above,
   * before it when it came from below.  The moved list is passed in as `r` so
   * that the conclusion is stated about a plain variable rather than a call.
   */
  lemma MoveToAdjacentInColumn(s: seq<Task>, from: nat, to: nat, x: Task, r: seq<Task>)
    requires from < |s| && to < |s| && from != to && x.stage == s[to].stage
    requires r == MoveTo(s, from, to, x)
    ensures from < to ==>
      StageView(r, s[to].stage) == StageView(r[..to - 1], s[to].stage) + [s[to], r[to]] + StageView(r[to + 1..], s[to].stage)
    ensures to < from ==>
      StageView(r, s[to].stage) == StageView(r[..to], s[to].stage) + [r[to], s[to]] + StageView(r[to + 2..], s[to].stage)
  {
    MoveToNeighbour(s, from, to, x);
    if from < to {
      PairInColumn(r, to - 1, x.stage);
    } else {
      PairInColumn(r, to, x.stage);
    }
  }

  /**
   * Hovering over another task puts the dragged task right next to the target in
   * the target's column.  The result of `DragOver` is passed in as `r`, which
   * keeps the verifier from unfolding `DragOver` inside the conclusion.
   */
  lemma DragOverTaskAdjacent(tasks: seq<Task>, activeId: string, overId: string, r: seq<Task>)
    requires activeId != overId && activeId in IdSet(tasks) && overId in IdSet(tasks)
    requires r == DragOver(tasks, activeId, Some(overId))
    ensures
      var i, j := FindIndex(tasks, activeId), FindIndex(tasks, overId);
      && (i < j ==>
            (StageView(r, tasks[j].stage) ==
             StageView(r[..j - 1], tasks[j].stage) + [tasks[j], r[j]] + StageView(r[j + 1..], tasks[j].stage)))
      && (j < i ==>
            (StageView(r, tasks[j].stage) ==
             StageView(r[..j], tasks[j].stage) + [r[j], tasks[j]] + StageView(r[j + 2..], tasks[j].stage)))
  {
    var i, j := FindIndex(tasks, activeId), FindIndex(tasks, overId);
    DragOverTaskIsMove(tasks, activeId, overId);
    MoveToAdjacentInColumn(tasks, i, j, tasks[i].(stage := tasks[j].stage), r);
  }

  /** Two neighbouring tasks of the same column stay neighbours in the column view. */
  lemma PairInColumn(s: seq<Task>, k: nat, column: Stage)
    requires k + 1 < |s| && s[k].stage == column && s[k + 1].stage == column
    ensures StageView(s, column) == StageView(s[..k], column) + [s[k], s[k + 1]] + StageView(s[k + 2..], column)
  {
    var c := HasStage(column);
    assert s == s[..k] + [s[k], s[k + 1]] + s[k + 2..];
    FilterConcat(s[..k] + [s[k], s[k + 1]], s[k + 2..], c);
    FilterConcat(s[..k], [s[k], s[k + 1]], c);
    FilterKeepsAll([s[k], s[k + 1]], c);
  }

  /**
   * Hovering over the column of another stage moves the dragged task into it:
   * the ids and their order are unchanged, the tasks with that id get the stage,
   * every other task is unchanged.
   */
  lemma DragOverColumn(tasks: seq<Task>, activeId: string, overId: string, stage: Stage)
    requires activeId in IdSet(tasks) && overId !in IdSet(tasks)
    requires ParseStage(overId) == Some(stage) && Find(tasks, activeId).value.stage != stage
    ensures Ids(DragOver(tasks, activeId, Some(overId))) == Ids(tasks)
    ensures forall k :: 0 <= k < |tasks| && tasks[k].id == activeId ==>
      DragOver(tasks, activeId, Some(overId))[k] == tasks[k].(stage := stage)
    ensures forall k :: 0 <= k < |tasks| && tasks[k].id != activeId ==>
      DragOver(tasks, activeId, Some(overId))[k] == tasks[k]
  {
    MovedKeepsIds(tasks, activeId, stage);
  }

  /** Every hover update keeps distinct ids distinct. */
  lemma DragOverKeepsIdsUnique(tasks: seq<Task>, activeId: string, over: Option<string>)
    requires UniqueIds(tasks)
    ensures UniqueIds(DragOver(tasks, activeId, over))
  {
    if over.Some? && over.value != activeId && activeId in IdSet(tasks) {
      if over.value in IdSet(tasks) {
        DragOverTask(tasks, activeId, over.value);
      } else {
        match ParseStage(over.value)
        case Some(stage) => MovedKeepsIds(tasks, activeId, stage);
        case None =>
      }
    }
  }

  /** The example of a drag into the next column: A in Pending hovered over B in In Progress. */
  lemma DragOverExample(a: Task, b: Task)
    requires a.id == "a" && a.stage == Pending && b.id == "b" && b.stage == InProgress
    ensures DragOver([a, b], "a", Some("b")) == [b, a.(stage := InProgress)]
  {
    var s := [a, b];
    assert FindIndex(s, "a") == 0;
    assert FindIndex(s, "b") == 1 by {
      assert FindIndex(s[1..], "b") == 0;
    }
  }
}
