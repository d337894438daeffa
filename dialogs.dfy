/**
 * The title guard of the add and edit dialogs: a submission whose title is
 * blank after trimming is dropped.  The add dialog passes the trimmed title and
 * description; the edit dialog checks the trimmed title but passes both strings
 * as typed.  `AddThroughDialog` and `EditThroughDialog` join a submission to the
 * provider operation that the dialogs' props name.
 */
module Dialogs {
  import opened TaskModel
  import opened TaskList
  import opened Operations

  /** The characters `String.prototype.trim` removes: ECMAScript WhiteSpace and LineTerminator. */
  predicate IsWhitespace(c: char)
  {
    || c == '\t' || c == '\n' || c == '\U{000B}' || c == '\U{000C}' || c == '\r' || c == ' '
    || c == '\U{00A0}' || c == '\U{1680}' || ('\U{2000}' <= c <= '\U{200A}')
    || c == '\U{2028}' || c == '\U{2029}' || c == '\U{202F}' || c == '\U{205F}' || c == '\U{3000}'
    || c == '\U{FEFF}'
  }

  /** The string without its leading whitespace. */
  function TrimStart(s: string): (r: string)
    ensures |r| <= |s| && r == s[|s| - |r|..]
    ensures forall k :: 0 <= k < |s| - |r| ==> IsWhitespace(s[k])
    ensures r == [] || !IsWhitespace(r[0])
  {
    if s != [] && IsWhitespace(s[0]) then TrimStart(s[1..]) else s
  }

  /** The string without its trailing whitespace. */
  function TrimEnd(s: string): (r: string)
    ensures |r| <= |s| && r == s[..|r|]
    ensures forall k :: |r| <= k < |s| ==> IsWhitespace(s[k])
    ensures r == [] || !IsWhitespace(r[|r| - 1])
  {
    if s != [] && IsWhitespace(s[|s| - 1]) then TrimEnd(s[..|s| - 1]) else s
  }

  /** `s.trim()`. */
  function Trim(s: string): string
  {
    TrimStart(TrimEnd(s))
  }

  /**
   * The trimmed string is a slice of the input that neither starts nor ends with
   * whitespace, and everything cut off on either side is whitespace.
   */
  lemma TrimSlice(s: string)
    ensures exists i, j ::
              && 0 <= i <= j <= |s| && Trim(s) == s[i..j]
              && (forall k :: 0 <= k < i ==> IsWhitespace(s[k]))
              && (forall k :: j <= k < |s| ==> IsWhitespace(s[k]))
    ensures Trim(s) == [] || (!IsWhitespace(Trim(s)[0]) && !IsWhitespace(Trim(s)[|Trim(s)| - 1]))
  {
    var e := TrimEnd(s);
    var r := TrimStart(e);
    var i, j := |e| - |r|, |e|;
    assert r == s[i..j];
    forall k | 0 <= k < i
      ensures IsWhitespace(s[k])
    {
      assert s[k] == e[k];
    }
    assert forall k :: j <= k < |s| ==> IsWhitespace(s[k]);
    if r != [] {
      assert r[|r| - 1] == e[|e| - 1];
    }
  }

  /** A title is blank after trimming exactly when it holds nothing but whitespace. */
  lemma TrimBlank(s: string)
    ensures Trim(s) == [] <==> forall k :: 0 <= k < |s| ==> IsWhitespace(s[k])
  {
    var e := TrimEnd(s);
    if forall k :: 0 <= k < |s| ==> IsWhitespace(s[k]) {
      if e != [] {
        assert e[|e| - 1] == s[|e| - 1];
      }
    } else {
      TrimSlice(s);
    }
  }

  /** Trimming twice is trimming once. */
  lemma TrimIdempotent(s: string)
    ensures Trim(Trim(s)) == Trim(s)
  {
    var r := Trim(s);
    TrimSlice(s);
    assert TrimEnd(r) == r;
    assert TrimStart(r) == r;
  }

  /** What the add dialog hands to `addTask`. */
  datatype AddRequest = AddRequest(title: string, description: string, stage: Stage)

  /** The add dialog's submit: None for a blank title, else the trimmed fields and the column's stage. */
  function SubmitAdd(title: string, description: string, stage: Stage): (r: Option<AddRequest>)
    ensures r.None? <==> Trim(title) == []
    ensures r.Some? ==> r.value.title == Trim(title) && r.value.description == Trim(description)
    ensures r.Some? ==> r.value.stage == stage
  {
    if Trim(title) == [] then None else Some(AddRequest(Trim(title), Trim(description), stage))
  }

  /** The edit dialog's save: None for a blank title, else the title and description as typed. */
  function SubmitEdit(title: string, description: string): (r: Option<(string, string)>)
    ensures r.None? <==> Trim(title) == []
    ensures r.Some? ==> r.value == (title, description)
  {
    if Trim(title) == [] then None else Some((title, description))
  }

  /** The list after an add submitted through the dialog. */
  function AddThroughDialog(tasks: seq<Task>, id: string, title: string, description: string, stage: Stage): seq<Task>
  {
    match SubmitAdd(title, description, stage)
    case None => tasks
    case Some(req) => Added(tasks, id, req.title, req.description, req.stage)
  }

  /** The list after an edit saved through the dialog. */
  function EditThroughDialog(tasks: seq<Task>, id: string, title: string, description: string): seq<Task>
  {
    match SubmitEdit(title, description)
    case None => tasks
    case Some(fields) => Edited(tasks, id, fields.0, fields.1)
  }

  /**
   * A blank title leaves the list unchanged; an accepted add appends a task whose
   * title has a non-whitespace character at each end.
   */
  lemma AddThroughDialogGuard(tasks: seq<Task>, id: string, title: string, description: string, stage: Stage)
    ensures Trim(title) == [] ==> AddThroughDialog(tasks, id, title, description, stage) == tasks
    ensures Trim(title) != [] ==>
      var r := AddThroughDialog(tasks, id, title, description, stage);
      var t := r[|r| - 1];
      |r| == |tasks| + 1 && r[..|tasks|] == tasks && t.id == id && t.stage == stage
      && t.title != [] && !IsWhitespace(t.title[0]) && !IsWhitespace(t.title[|t.title| - 1])
  {
    TrimSlice(title);
  }

  /**
   * A blank title leaves the list unchanged; an accepted edit stores the title as
   * typed, which holds a non-whitespace character though it may start or end
   * with whitespace.
   */
  lemma EditThroughDialogGuard(tasks: seq<Task>, id: string, title: string, description: string)
    ensures Trim(title) == [] ==> EditThroughDialog(tasks, id, title, description) == tasks
    ensures Trim(title) != [] ==>
      EditThroughDialog(tasks, id, title, description) == Edited(tasks, id, title, description)
      && exists k :: 0 <= k < |title| && !IsWhitespace(title[k])
  {
    TrimBlank(title);
  }
}
