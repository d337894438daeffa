/**
 * The task provider: the board's state (the task list and the task being
 * dragged) and the operations that overwrite it.  Each method leaves the list
 * equal to the matching function of `Operations` or `Dedup` applied to the old
 * list; those functions carry the properties.
 */
module Provider {
  import opened TaskModel
  import opened TaskList
  import opened Persistence
  import opened Operations

  class TaskProvider {
    /** The ordered task list, all columns together. */
    var tasks: seq<Task>
    /** The task picked up by the current drag gesture, if any. */
    var activeTask: Option<Task>

    /**
     * The initial state: the saved list (as parsed from storage; empty when
     * nothing was saved), deduplicated, with no drag in progress.  The first run
     * of the save effect on it writes it back unchanged.
     */
    constructor (saved: seq<Task>)
      ensures tasks == Dedup(saved) && UniqueIds(tasks)
      ensures SyncEffect(tasks) == Save(tasks)
      ensures activeTask == None
    {
      var unique := DeduplicateTasks(saved);
      tasks := unique;
      activeTask := None;
      new;
      DedupLength(tasks);
    }

    /**
     * The effect run after every change of the list: a list with duplicate ids
     * is replaced by its deduplication and nothing is written; any other list is
     * written to storage as it is.  Returns what is written.
     */
    method SyncStorage() returns (written: Option<seq<Task>>)
      modifies this`tasks
      ensures written.Some? <==> UniqueIds(old(tasks))
      ensures SyncEffect(old(tasks)).Repair? ==>
        tasks == SyncEffect(old(tasks)).replacement && written == None
      ensures SyncEffect(old(tasks)).Save? ==>
        tasks == old(tasks) && written == Some(SyncEffect(old(tasks)).written)
      ensures UniqueIds(tasks)
    {
      var uniqueTasks := DeduplicateTasks(tasks);
      if |uniqueTasks| != |tasks| {
        tasks := uniqueTasks;
        written := None;
      } else {
        written := Some(tasks);
      }
    }

    /**
     * `addTask`: appends a task with the given fields; `id` stands for the fresh
     * random id the source draws.  A fresh id keeps the ids distinct.
     */
    method AddTask(id: string, title: string, description: string, stage: Stage := DefaultStage)
      modifies this`tasks
      ensures tasks == Added(old(tasks), id, title, description, stage)
      ensures UniqueIds(old(tasks)) && id !in IdSet(old(tasks)) ==> UniqueIds(tasks)
    {
      var newTask := Task(id, title, description, stage);
      tasks := tasks + [newTask];
      if UniqueIds(old(tasks)) && id !in IdSet(old(tasks)) {
        AddedKeepsIdsUnique(old(tasks), id, title, description, stage);
      }
    }

    /** `deleteTask`: drops every task with `id`. */
    method DeleteTask(id: string)
      modifies this`tasks
      ensures tasks == Deleted(old(tasks), id)
      ensures id !in IdSet(tasks) && Subsequence(tasks, old(tasks))
      ensures UniqueIds(old(tasks)) ==> UniqueIds(tasks)
    {
      DeletedKeepsOthersInOrder(tasks, id);
      if UniqueIds(tasks) {
        DeletedKeepsIdsUnique(tasks, id);
      }
      tasks := Deleted(tasks, id);
    }

    /** `moveTask`: gives every task with `id` the stage `newStage`, in place. */
    method MoveTask(id: string, newStage: Stage)
      modifies this`tasks
      ensures tasks == Moved(old(tasks), id, newStage)
      ensures Ids(tasks) == Ids(old(tasks))
      ensures UniqueIds(old(tasks)) ==> UniqueIds(tasks)
    {
      MovedKeepsIds(tasks, id, newStage);
      tasks := Moved(tasks, id, newStage);
    }

    /** `editTask`: gives every task with `id` the title and description, in place. */
    method EditTask(id: string, title: string, description: string)
      modifies this`tasks
      ensures tasks == Edited(old(tasks), id, title, description)
      ensures Ids(tasks) == Ids(old(tasks))
      ensures UniqueIds(old(tasks)) ==> UniqueIds(tasks)
    {
      EditedKeepsIds(tasks, id, title, description);
      tasks := Edited(tasks, id, title, description);
    }

    /** `handleDragStart`: remembers the picked-up task; an unknown id leaves the marker as it was. */
    method HandleDragStart(activeId: string)
      modifies this`activeTask
      ensures activeId in IdSet(tasks) ==> activeTask == Find(tasks, activeId)
      ensures activeId !in IdSet(tasks) ==> activeTask == old(activeTask)
      ensures activeTask.Some? ==> activeTask.value in tasks || activeTask == old(activeTask)
    {
      var task := Find(tasks, activeId);
      if task.Some? {
        activeTask := task;
      }
    }

    /**
     * `handleDragOver`: the live update while the dragged task `activeId`
     * hovers over the drop target `over` (None when there is none).
     */
    method HandleDragOver(activeId: string, over: Option<string>)
      modifies this`tasks
      ensures tasks == DragOver(old(tasks), activeId, over)
      ensures |tasks| == |old(tasks)|
      ensures UniqueIds(old(tasks)) ==> UniqueIds(tasks)
    {
      if UniqueIds(tasks) {
        DragOverKeepsIdsUnique(tasks, activeId, over);
      }
      if over.None? {
        return;
      }
      var overId := over.value;
      if activeId == overId {
        return;
      }
      var activeTask := Find(tasks, activeId);
      if activeTask.None? {
        return;
      }
      var overTask := Find(tasks, overId);
      if overTask.Some? {
        var taskIndex := FindIndex(tasks, activeId);
        var targetIndex := FindIndex(tasks, overId);
        if activeTask.value.stage != overTask.value.stage {
          // Into another stage at the target's position: remove, then insert at the old index of the target.
          var updatedTask := tasks[taskIndex].(stage := overTask.value.stage);
          var result := tasks;
          result := result[..taskIndex] + result[taskIndex + 1..];
          assert result == RemoveAt(tasks, taskIndex);
          result := result[..targetIndex] + [updatedTask] + result[targetIndex..];
          assert result == MoveTo(tasks, taskIndex, targetIndex, updatedTask);
          tasks := result;
        } else {
          tasks := ArrayMove(tasks, taskIndex, targetIndex);
        }
      } else {
        var stage := ParseStage(overId);
        if stage.Some? && activeTask.value.stage != stage.value {
          MoveTask(activeId, stage.value);
        }
      }
    }

    /** `handleDragEnd`: clears the drag marker; the list already holds the final arrangement. */
    method HandleDragEnd()
      modifies this`activeTask
      ensures activeTask == None
    {
      activeTask := None;
    }
  }
}
