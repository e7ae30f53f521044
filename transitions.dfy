/** The effect of each event handler of the `App` component on the whole
    session state, as a function of the state before it and of what the
    outside world answered: the outcome of the handler's request, and the
    user's answer to the delete confirmation. Each handler is one atomic
    step; the `loading` flag it raises is lowered again before it ends. */
module Transitions {
  import opened Notes
  import opened NoteLists
  import opened Text
  import opened Views

  /** `fetchNotes`. On success the list becomes the response, and its first
      note is selected only when no truthy id was selected; on failure only
      the error changes. */
  function FetchNotes(s: SessionState, response: Outcome<seq<Note>>): (r: SessionState)
    ensures !r.loading
    ensures r.theme == s.theme && r.isEditing == s.isEditing
    ensures r.newTitle == s.newTitle && r.newContent == s.newContent
    ensures response.Ok? ==> r.notes == response.value && r.error == ""
    ensures response.Ok? && Truthy(s.selectedId) ==> r.selectedId == s.selectedId
    ensures response.Ok? && response.value == [] ==> r.selectedId == s.selectedId
    ensures response.Ok? && !Truthy(s.selectedId) && response.value != [] ==>
      r.selectedId == Some(response.value[0].id)
    ensures !response.Ok? ==>
      r.notes == s.notes && r.selectedId == s.selectedId &&
      r.error == FailureMessage(response, LoadNotesFailed)
    ensures Consistent(s) ==> Consistent(r)
  {
    var started := s.(loading := true, error := "");
    var done :=
      match response
      case Ok(data) =>
        started.(notes := data,
                 selectedId := if !Truthy(s.selectedId) && |data| > 0 then Some(data[0].id) else s.selectedId)
      case _ => started.(error := FailureMessage(response, LoadNotesFailed));
    done.(loading := false)
  }

  /** After the first successful load with nothing selected and the form
      closed, the panel shows the first note of the response. */
  lemma FetchNotesShowsFirstNote(s: SessionState, data: seq<Note>)
    requires !Truthy(s.selectedId) && data != [] && !s.isEditing
    ensures MainPanel(FetchNotes(s, Ok(data))) == NoteView(data[0])
  {
    assert Find(data, Some(data[0].id)) == Some(data[0]);
  }

  /** `fetchNote`: on success the drafts receive the returned note's title
      and content and its id is selected; the edit mode is left as it was. */
  function FetchNote(s: SessionState, response: Outcome<Note>): (r: SessionState)
    ensures !r.loading
    ensures r.theme == s.theme && r.notes == s.notes && r.isEditing == s.isEditing
    ensures response.Ok? ==>
      r.error == "" && r.selectedId == Some(response.value.id) &&
      r.newTitle == response.value.title && r.newContent == response.value.content
    ensures !response.Ok? ==>
      r.selectedId == s.selectedId && r.newTitle == s.newTitle && r.newContent == s.newContent &&
      r.error == FailureMessage(response, NoteNotFound)
  {
    var started := s.(loading := true, error := "");
    var done :=
      match response
      case Ok(data) => started.(newTitle := data.title, newContent := data.content, selectedId := Some(data.id))
      case _ => started.(error := FailureMessage(response, NoteNotFound));
    done.(loading := false)
  }

  /** `fetchNote` is the one handler that does not keep `Consistent`: from a
      consistent state with the form closed it can leave text in the drafts. */
  lemma FetchNoteCanFillClosedDrafts()
    ensures exists s, o :: Consistent(s) && !Consistent(FetchNote(s, o))
  {
    var s := Initial;
    var o := Ok(Note(Num(1), "T", "C"));
    assert !DraftsOnlyWhileEditing(FetchNote(s, o));
  }

  /** `handleSelectNote(id)`: the id becomes the selection; the form closes
      and the drafts and the error are cleared; the list is untouched. */
  function SelectNote(s: SessionState, id: Id): (r: SessionState)
    ensures r.notes == s.notes && r.theme == s.theme && r.loading == s.loading
    ensures r.selectedId == Some(id) && !r.isEditing
    ensures r.newTitle == "" && r.newContent == "" && r.error == ""
    ensures Consistent(s) ==> Consistent(r)
  {
    s.(selectedId := Some(id), isEditing := false, newTitle := "", newContent := "", error := "")
  }

  /** After selecting, the panel shows a note with the chosen id when the
      list holds one, and the welcome text otherwise; never an error. */
  lemma SelectNoteShowsChosenNote(s: SessionState, id: Id)
    requires !s.loading
    ensures (exists i :: 0 <= i < |s.notes| && s.notes[i].id == id) ==>
      MainPanel(SelectNote(s, id)).NoteView? && MainPanel(SelectNote(s, id)).note.id == id
    ensures (forall i :: 0 <= i < |s.notes| ==> s.notes[i].id != id) ==>
      MainPanel(SelectNote(s, id)) == WelcomePanel
  {
    var r := SelectNote(s, id);
    if MainPanel(r).NoteView? {
      NoteViewShowsSelected(r);
    }
  }

  /** `handleNewNoteClick`: an empty form with nothing selected. */
  function NewNote(s: SessionState): (r: SessionState)
    ensures r.notes == s.notes && r.theme == s.theme && r.loading == s.loading
    ensures r.selectedId == None && r.isEditing
    ensures r.newTitle == "" && r.newContent == "" && r.error == ""
    ensures !s.loading ==> MainPanel(r) == FormPanel("", "", CreateNote)
    ensures Consistent(s) ==> Consistent(r)
  {
    s.(isEditing := true, selectedId := None, newTitle := "", newContent := "", error := "")
  }

  /** `handleEditNote`: with a truthy selection that names a note, the form
      opens on a copy of the first such note; otherwise nothing changes. The
      selection, the list and the error stay as they are. */
  function EditNote(s: SessionState): (r: SessionState)
    ensures !Truthy(s.selectedId) ==> r == s
    ensures (forall i :: 0 <= i < |s.notes| ==> !Matches(s.notes[i], s.selectedId)) ==> r == s
    ensures r.notes == s.notes && r.selectedId == s.selectedId && r.theme == s.theme
    ensures r.loading == s.loading && r.error == s.error
    ensures Truthy(s.selectedId) && (exists i :: 0 <= i < |s.notes| && Matches(s.notes[i], s.selectedId)) ==>
      r.isEditing &&
      exists i :: IsFirstMatch(s.notes, s.selectedId, i) &&
        r.newTitle == s.notes[i].title && r.newContent == s.notes[i].content
    ensures Consistent(s) ==> Consistent(r)
  {
    if !Truthy(s.selectedId) then s
    else
      match Find(s.notes, s.selectedId)
      case None => s
      case Some(note) => s.(isEditing := true, newTitle := note.title, newContent := note.content)
  }

  /** When editing starts from the note view, the panel becomes the form,
      filled with the note that was shown and labelled "Save Changes". */
  lemma EditNoteOpensFormOnShownNote(s: SessionState)
    requires MainPanel(s).NoteView? && Truthy(s.selectedId)
    ensures MainPanel(EditNote(s)) ==
      FormPanel(MainPanel(s).note.title, MainPanel(s).note.content, SaveChanges)
  {
  }

  /** `handleDeleteNote`. A confirmed delete of a truthy selection that
      succeeds drops every note with that id, keeps the others in order, and
      selects the first survivor or nothing; the form closes. The new
      selection is computed, as in the handler, from the list as it was when
      the handler started, filtered by the deleted id; it is proved to be the
      first note of the list after removal. */
  function DeleteNote(s: SessionState, confirmed: bool, response: Outcome<()>): (r: SessionState)
    ensures !Truthy(s.selectedId) || !confirmed ==> r == s
    ensures Truthy(s.selectedId) && confirmed ==> !r.loading && r.theme == s.theme
    ensures Truthy(s.selectedId) && confirmed && response.Ok? ==>
      r.notes == Remove(s.notes, s.selectedId.value) &&
      r.selectedId == FirstId(r.notes) &&
      !r.isEditing && r.newTitle == "" && r.newContent == "" && r.error == ""
    ensures Truthy(s.selectedId) && confirmed && !response.Ok? ==>
      r.notes == s.notes && r.selectedId == s.selectedId && r.isEditing == s.isEditing &&
      r.newTitle == s.newTitle && r.newContent == s.newContent &&
      r.error == FailureMessage(response, DeleteFailed)
    ensures Consistent(s) ==> Consistent(r)
  {
    if !Truthy(s.selectedId) || !confirmed then s
    else
      var id := s.selectedId.value;
      var started := s.(loading := true, error := "");
      var done :=
        if response.Ok? then
          started.(notes := Remove(s.notes, id), selectedId := NextSelection(s.notes, id),
                   isEditing := false, newTitle := "", newContent := "")
        else started.(error := FailureMessage(response, DeleteFailed));
      done.(loading := false)
  }

  /** After a successful delete the deleted id is gone from the list, the
      new selection is the first surviving note in the old order (none
      exactly when nothing survives), and the panel shows that note or the
      welcome text. */
  lemma DeleteSelectsFirstSurvivor(s: SessionState, response: Outcome<()>)
    requires Truthy(s.selectedId) && response.Ok?
    ensures var r := DeleteNote(s, true, response);
      var id := s.selectedId.value;
      (forall i :: 0 <= i < |r.notes| ==> r.notes[i].id != id) &&
      (r.selectedId.None? <==> forall i :: 0 <= i < |s.notes| ==> s.notes[i].id == id) &&
      (r.selectedId.Some? ==>
         exists i :: IsFirstSurvivor(s.notes, id, i) && s.notes[i].id == r.selectedId.value) &&
      MainPanel(r) == if r.notes == [] then WelcomePanel else NoteView(r.notes[0])
  {
    var r := DeleteNote(s, true, response);
    var id := s.selectedId.value;
    NextSelectionIsFirstSurvivor(s.notes, id);
    forall i | 0 <= i < |r.notes| ensures r.notes[i].id != id {
      assert r.notes[i] in r.notes;
    }
    if r.notes != [] {
      assert Find(r.notes, r.selectedId) == Some(r.notes[0]);
    }
  }

  /** Deleting the middle one of three selected notes selects the first
      note, the first of the remaining list, not the one that followed it. */
  lemma DeleteMiddleSelectsFirst()
    ensures var n1, n2, n3 := Note(Num(1), "a", ""), Note(Num(2), "b", ""), Note(Num(3), "c", "");
      var r := DeleteNote(Initial.(notes := [n1, n2, n3], selectedId := Some(Num(2))), true, Ok(()));
      r.notes == [n1, n3] && r.selectedId == Some(Num(1)) && MainPanel(r) == NoteView(n1)
  {
    var n1, n2, n3 := Note(Num(1), "a", ""), Note(Num(2), "b", ""), Note(Num(3), "c", "");
    var ns := [n1, n2, n3];
    assert ns[1..] == [n2, n3] && ns[1..][1..] == [n3];
    assert Remove(ns, Num(2)) == [n1, n3];
    assert Find([n1, n3], Some(Num(1))) == Some(n1);
  }

  /** Which request `handleSaveNote` makes: an update when the selection is
      truthy and the form is open, a create otherwise. */
  predicate IsUpdate(s: SessionState) {
    Truthy(s.selectedId) && s.isEditing
  }

  /** `handleSaveNote`. A blank title (all white space, which is what
      `!newTitle.trim()` tests) sets the error and changes nothing else. A
      successful update replaces every note carrying the returned id, in
      place; a successful create puts the returned note in front. Either way
      the returned note is selected and the form closes. On failure only the
      error changes: the form stays open with its drafts. */
  function SaveNote(s: SessionState, response: Outcome<Note>): (r: SessionState)
    ensures IsBlank(s.newTitle) ==> r == s.(error := EmptyTitle)
    ensures !IsBlank(s.newTitle) ==> !r.loading && r.theme == s.theme
    ensures !IsBlank(s.newTitle) && response.Ok? ==>
      r.selectedId == Some(response.value.id) && !r.isEditing &&
      r.newTitle == "" && r.newContent == "" && r.error == ""
    ensures !IsBlank(s.newTitle) && response.Ok? && !IsUpdate(s) ==>
      |r.notes| == |s.notes| + 1 && r.notes[0] == response.value && r.notes[1..] == s.notes
    ensures !IsBlank(s.newTitle) && response.Ok? && IsUpdate(s) ==>
      r.notes == Replace(s.notes, response.value)
    ensures !IsBlank(s.newTitle) && !response.Ok? ==>
      r.notes == s.notes && r.selectedId == s.selectedId && r.isEditing == s.isEditing &&
      r.newTitle == s.newTitle && r.newContent == s.newContent &&
      r.error == FailureMessage(response, if IsUpdate(s) then UpdateFailed else CreateFailed)
    ensures Consistent(s) ==> Consistent(r)
  {
    TrimEmptyIffBlank(s.newTitle);
    if Trim(s.newTitle) == "" then s.(error := EmptyTitle)
    else
      var started := s.(loading := true, error := "");
      var done :=
        match response
        case Ok(note) =>
          started.(notes := if IsUpdate(s) then Replace(s.notes, note) else [note] + s.notes,
                   selectedId := Some(note.id),
                   isEditing := false, newTitle := "", newContent := "")
        case _ =>
          started.(error := FailureMessage(response, if IsUpdate(s) then UpdateFailed else CreateFailed));
      done.(loading := false)
  }

  /** After a successful save the panel shows the note the server returned:
      always after a create, and after an update whenever the list held an
      entry with the returned id. */
  lemma SaveShowsReturnedNote(s: SessionState, note: Note)
    requires !IsBlank(s.newTitle)
    requires IsUpdate(s) ==> exists i :: 0 <= i < |s.notes| && s.notes[i].id == note.id
    ensures MainPanel(SaveNote(s, Ok(note))) == NoteView(note)
  {
    var r := SaveNote(s, Ok(note));
    if IsUpdate(s) {
      FindAfterReplace(s.notes, note);
    } else {
      assert Find(r.notes, Some(note.id)) == Some(note);
    }
  }

  /** The form's Cancel button: the form closes, the drafts and the error are
      cleared, and the list and the selection stay. */
  function Cancel(s: SessionState): (r: SessionState)
    ensures r.notes == s.notes && r.selectedId == s.selectedId
    ensures r.theme == s.theme && r.loading == s.loading
    ensures !r.isEditing && r.newTitle == "" && r.newContent == "" && r.error == ""
    ensures Consistent(r) <==> Idle(s)
  {
    s.(isEditing := false, newTitle := "", newContent := "", error := "")
  }

  /** Cancelling an edit goes back to the note it began from; cancelling a
      create (which cleared the selection) goes back to the welcome text. */
  lemma CancelReturnsToView(s: SessionState)
    requires !s.loading
    ensures s.selectedId.None? ==> MainPanel(Cancel(s)) == WelcomePanel
    ensures (exists i :: 0 <= i < |s.notes| && Matches(s.notes[i], s.selectedId)) ==>
      MainPanel(Cancel(s)).NoteView? && Some(MainPanel(Cancel(s)).note.id) == s.selectedId
  {
    if MainPanel(Cancel(s)).NoteView? {
      NoteViewShowsSelected(Cancel(s));
    }
  }

  /** `toggleTheme`: only the theme changes, and two toggles undo each other. */
  function ToggleTheme(s: SessionState): (r: SessionState)
    ensures r.theme != s.theme
    ensures r.(theme := s.theme) == s && Toggled(r.theme) == s.theme
    ensures Consistent(r) == Consistent(s)
  {
    s.(theme := Toggled(s.theme))
  }

  /** The title input's change handler: the draft title becomes the text. */
  function SetDraftTitle(s: SessionState, text: string): (r: SessionState)
    ensures r.newTitle == text && r.(newTitle := s.newTitle) == s
    ensures Consistent(s) && s.isEditing ==> Consistent(r)
  {
    s.(newTitle := text)
  }

  /** The content textarea's change handler: the draft content becomes the text. */
  function SetDraftContent(s: SessionState, text: string): (r: SessionState)
    ensures r.newContent == text && r.(newContent := s.newContent) == s
    ensures Consistent(s) && s.isEditing ==> Consistent(r)
  {
    s.(newContent := text)
  }
}
