/** The task record and the fixed stage enumeration of the board. */
module TaskModel {

  datatype Option<+T> = None | Some(value: T)

  /** The three workflow stages, one per column. */
  datatype Stage = Pending | InProgress | Complete

  /** A task: an opaque string id, a title, a description and the stage it sits in. */
  datatype Task = Task(id: string, title: string, description: string, stage: Stage)

  /** The column order of the board, left to right. */
  const Stages: seq<Stage> := [Pending, InProgress, Complete]

  /** The stage a new task gets when none is given. */
  const DefaultStage: Stage := Pending

  /** The name of a stage; it is also the id of that stage's column drop zone. */
  function StageName(s: Stage): string
  {
    match s
    case Pending => "Pending"
    case InProgress => "In Progress"
    case Complete => "Complete"
  }

  /** Recognises a drop-zone id: the stage named `x`, or None when `x` names no stage. */
  function ParseStage(x: string): (r: Option<Stage>)
    ensures r.Some? ==> StageName(r.value) == x
    ensures r.None? ==> forall s: Stage :: StageName(s) != x
  {
    if x == "Pending" then Some(Pending)
    else if x == "In Progress" then Some(InProgress)
    else if x == "Complete" then Some(Complete)
    else None
  }

  /** Every stage is listed exactly once in the column order, and the default is the first column. */
  lemma StagesEnumerateStage(s: Stage)
    ensures s in Stages
    ensures forall i, j :: 0 <= i < j < |Stages| ==> Stages[i] != Stages[j]
    ensures Stages[0] == DefaultStage
  {
  }

  /** Naming a stage and parsing the name back gives the stage. */
  lemma ParseStageName(s: Stage)
    ensures ParseStage(StageName(s)) == Some(s)
  {
  }
}
