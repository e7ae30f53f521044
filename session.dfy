/** The `App` component's state hooks and its event handlers. Each handler
    updates the fields step by step, as the component does, and is proved to
    end in the state its transition function describes. A request the
    handler makes is replaced by the outcome passed in, `window.confirm` by
    a boolean. */
module Session {
  import opened Notes
  import opened NoteLists
  import opened Text
  import T = Transitions

  class NoteSession {
    var theme: Theme
    var notes: seq<Note>
    var selectedId: Option<Id>
    var loading: bool
    var error: string
    var isEditing: bool
    var newTitle: string
    var newContent: string

    /** The state hooks, as one value. */
    function Snapshot(): SessionState
      reads this
    {
      SessionState(theme, notes, selectedId, loading, error, isEditing, newTitle, newContent)
    }

    /** The initial values of the `useState` hooks; mounting then runs
        `FetchNotes` once. */
    constructor ()
      ensures Snapshot() == Initial
      ensures Consistent(Snapshot())
    {
      theme := Light;
      notes := [];
      selectedId := None;
      loading := false;
      error := "";
      isEditing := false;
      newTitle := "";
      newContent := "";
    }

    /** `fetchNotes`. */
    method FetchNotes(response: Outcome<seq<Note>>)
      modifies this
      ensures Snapshot() == T.FetchNotes(old(Snapshot()), response)
    {
      loading := true;
      error := "";
      match response {
        case Ok(data) =>
          notes := data;
          if !Truthy(selectedId) && |data| > 0 {
            selectedId := Some(data[0].id);
          }
        case _ =>
          error := FailureMessage(response, LoadNotesFailed);
      }
      loading := false;
    }

    /** `fetchNote(id)`. The id only names the request; what is stored comes
        from the response. */
    method FetchNote(id: Id, response: Outcome<Note>)
      modifies this
      ensures Snapshot() == T.FetchNote(old(Snapshot()), response)
    {
      loading := true;
      error := "";
      match response {
        case Ok(data) =>
          newTitle := data.title;
          newContent := data.content;
          selectedId := Some(data.id);
        case _ =>
          error := FailureMessage(response, NoteNotFound);
      }
      loading := false;
    }

    /** `handleSelectNote(id)`. */
    method SelectNote(id: Id)
      modifies this
      ensures Snapshot() == T.SelectNote(old(Snapshot()), id)
    {
      selectedId := Some(id);
      isEditing := false;
      newTitle := "";
      newContent := "";
      error := "";
    }

    /** `handleNewNoteClick`. */
    method NewNote()
      modifies this
      ensures Snapshot() == T.NewNote(old(Snapshot()))
    {
      isEditing := true;
      selectedId := None;
      newTitle := "";
      newContent := "";
      error := "";
    }

    /** `handleEditNote`. */
    method EditNote()
      modifies this
      ensures Snapshot() == T.EditNote(old(Snapshot()))
    {
      if !Truthy(selectedId) {
        return;
      }
      var note := Find(notes, selectedId);
      if note.Some? {
        isEditing := true;
        newTitle := note.value.title;
        newContent := note.value.content;
      }
    }

    /** `handleDeleteNote`. The reselection reads the list the handler's
        closure captured when it was called, while the list update applies
        to the current list; with no other step in between, the two are the
        same list. */
    method DeleteNote(confirmed: bool, response: Outcome<()>)
      modifies this
      ensures Snapshot() == T.DeleteNote(old(Snapshot()), confirmed, response)
    {
      if !Truthy(selectedId) {
        return;
      }
      if !confirmed {
        return;
      }
      var captured := notes;
      var id := selectedId.value;
      loading := true;
      error := "";
      match response {
        case Ok(_) =>
          notes := Remove(notes, id);
          selectedId := NextSelection(captured, id);
          isEditing := false;
          newTitle := "";
          newContent := "";
        case _ =>
          error := FailureMessage(response, DeleteFailed);
      }
      loading := false;
    }

    /** `handleSaveNote`. */
    method SaveNote(response: Outcome<Note>)
      modifies this
      ensures Snapshot() == T.SaveNote(old(Snapshot()), response)
    {
      if Trim(newTitle) == "" {
        error := EmptyTitle;
        return;
      }
      loading := true;
      error := "";
      var editing := Truthy(selectedId) && isEditing;
      match response {
        case Ok(note) =>
          if editing {
            notes := Replace(notes, note);
          } else {
            notes := [note] + notes;
          }
          selectedId := Some(note.id);
          isEditing := false;
          newTitle := "";
          newContent := "";
        case _ =>
          error := FailureMessage(response, if editing then UpdateFailed else CreateFailed);
      }
      loading := false;
    }

    /** The form's Cancel button. */
    method Cancel()
      modifies this
      ensures Snapshot() == T.Cancel(old(Snapshot()))
    {
      isEditing := false;
      newTitle := "";
      newContent := "";
      error := "";
    }

    /** The title input's change handler. */
    method SetDraftTitle(text: string)
      modifies this
      ensures Snapshot() == T.SetDraftTitle(old(Snapshot()), text)
    {
      newTitle := text;
    }

    /** The content textarea's change handler. */
    method SetDraftContent(text: string)
      modifies this
      ensures Snapshot() == T.SetDraftContent(old(Snapshot()), text)
    {
      newContent := text;
    }

    /** `toggleTheme`. */
    method ToggleTheme()
      modifies this
      ensures Snapshot() == T.ToggleTheme(old(Snapshot()))
    {
      theme := Toggled(theme);
    }
  }
}
