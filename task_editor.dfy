/** The task label editor: shows the current task, and lets an admin edit it, save
    it (trimmed, with a default when blank) or cancel. */
module TaskEditorModel {
  import opened Types
  import opened Text

  const UntitledTask: string := "Untitled Task"

  /** The label a save emits for the edited text `editValue`. */
  function SavedTask(editValue: string): (t: string)
    ensures Trim(editValue) != "" ==> t == Trim(editValue)
    ensures (forall i :: 0 <= i < |editValue| ==> IsWhitespace(editValue[i])) ==> t == UntitledTask
  {
    TrimEmptyIffBlank(editValue);
    if Trim(editValue) != "" then Trim(editValue) else UntitledTask
  }

  /** A saved label is never blank and has nothing left to trim. */
  lemma SavedTaskIsTrimmedAndNonEmpty(editValue: string)
    ensures SavedTask(editValue) != ""
    ensures Trim(SavedTask(editValue)) == SavedTask(editValue)
  {
    var t := SavedTask(editValue);
    if Trim(editValue) != "" {
      assert t == Trim(editValue);
      TrimIdempotent(editValue);
    } else {
      assert t == UntitledTask;
      UntitledTaskIsTrimmed();
    }
  }

  lemma UntitledTaskIsTrimmed()
    ensures UntitledTask != "" && Trim(UntitledTask) == UntitledTask
  {
    var u := UntitledTask;
    assert u[0] == 'U' && u[|u| - 1] == 'k';
    NothingToTrim(u);
  }

  lemma NothingToTrim(s: string)
    requires s != [] && !IsWhitespace(s[0]) && !IsWhitespace(s[|s| - 1])
    ensures Trim(s) == s
  {
    assert TrimStart(s) == s;
  }

  /** The text shown outside edit mode. */
  function DisplayText(currentTask: string): (t: string)
    ensures t != ""
    ensures currentTask != "" ==> t == currentTask
    ensures currentTask == "" ==> t == UntitledTask
  {
    if currentTask != "" then currentTask else UntitledTask
  }

  /** The editor is shown at all only to an admin or when there is a task. */
  predicate Rendered(isAdmin: bool, currentTask: string)
  {
    !(!isAdmin && currentTask == "")
  }

  /** Only an admin can see the `Untitled Task` placeholder outside edit mode:
      a non-admin is shown the editor only when there is a task, and then sees
      that task. */
  lemma OnlyAdminSeesPlaceholder(isAdmin: bool, currentTask: string)
    requires Rendered(isAdmin, currentTask)
    ensures !isAdmin ==> DisplayText(currentTask) == currentTask
    ensures DisplayText(currentTask) == UntitledTask ==> isAdmin || currentTask == UntitledTask
  {
  }

  class TaskEditor {
    /** The properties passed in by the page. */
    var currentTask: string
    var isAdmin: bool
    /** The editor's own state. */
    var isEditing: bool
    var editValue: string

    constructor(currentTask: string, isAdmin: bool)
      ensures this.currentTask == currentTask && this.isAdmin == isAdmin
      ensures !isEditing && editValue == currentTask
    {
      this.currentTask := currentTask;
      this.isAdmin := isAdmin;
      isEditing := false;
      editValue := currentTask;
    }

    /** New properties from the page; the edited text keeps its value. */
    method ReceiveProps(task: string, admin: bool)
      modifies this`currentTask, this`isAdmin
      ensures currentTask == task && isAdmin == admin
    {
      currentTask := task;
      isAdmin := admin;
    }

    /** The edit button, which only an admin is shown. */
    method StartEdit()
      modifies this`isEditing
      ensures isEditing == (old(isEditing) || isAdmin)
    {
      if isAdmin {
        isEditing := true;
      }
    }

    /** Typing in the edit field, which exists only in edit mode. */
    method ChangeEditValue(typed: string)
      requires isEditing
      modifies this`editValue
      ensures editValue == typed
    {
      editValue := typed;
    }

    /** The save button, shown only in edit mode: emits the saved label and leaves
        edit mode. */
    method HandleSave() returns (emitted: string)
      requires isEditing
      modifies this`isEditing
      ensures emitted == SavedTask(editValue)
      ensures !isEditing
    {
      var trimmed := Trim(editValue);
      emitted := if trimmed != "" then trimmed else UntitledTask;
      isEditing := false;
    }

    /** The cancel button, shown only in edit mode: emits nothing, restores the
        edited text to the current task and leaves edit mode. */
    method HandleCancel()
      requires isEditing
      modifies this`editValue, this`isEditing
      ensures editValue == currentTask && !isEditing
    {
      editValue := currentTask;
      isEditing := false;
    }

    /** A key pressed in the edit field, which exists only in edit mode: Enter
        saves, Escape cancels, any other key does nothing. */
    method KeyDown(key: string) returns (emitted: Option<string>)
      requires isEditing
      modifies this`editValue, this`isEditing
      ensures key == "Enter" ==> emitted == Some(SavedTask(old(editValue))) && !isEditing && editValue == old(editValue)
      ensures key == "Escape" ==> emitted.None? && !isEditing && editValue == currentTask
      ensures key != "Enter" && key != "Escape" ==> emitted.None? && unchanged(this)
    {
      emitted := None;
      if key == "Enter" {
        var saved := HandleSave();
        emitted := Some(saved);
      }
      if key == "Escape" {
        HandleCancel();
      }
    }
  }
}
