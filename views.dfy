/** What the two presentational parts of the page show for a session state:
    which content the main panel renders, and one sidebar entry per note. */
module Views {
  import opened Notes
  import opened NoteLists
  import opened Text

  /** The label of the form's submit button. */
  datatype SubmitLabel = SaveChanges | CreateNote

  /** The kinds of content the main panel renders. */
  datatype Panel =
    | LoadingPanel
    | ErrorPanel(message: string)
    | FormPanel(title: string, content: string, submit: SubmitLabel)
    | NoteView(note: Note)
    | WelcomePanel

  /** `MainPanel`: loading first, then a non-empty error, then the edit form,
      then the note the selection names, and the welcome text otherwise. */
  function MainPanel(s: SessionState): (p: Panel)
    ensures p.LoadingPanel? <==> s.loading
    ensures p.ErrorPanel? <==> !s.loading && s.error != ""
    ensures p.ErrorPanel? ==> p.message == s.error
    ensures p.FormPanel? <==> !s.loading && s.error == "" && s.isEditing
    ensures p.FormPanel? ==>
      p.title == s.newTitle && p.content == s.newContent &&
      (p.submit == SaveChanges <==> Truthy(s.selectedId))
    ensures p.NoteView? ==>
      !s.loading && s.error == "" && !s.isEditing &&
      exists i :: IsFirstMatch(s.notes, s.selectedId, i) && s.notes[i] == p.note
    ensures p.WelcomePanel? <==>
      !s.loading && s.error == "" && !s.isEditing &&
      forall i :: 0 <= i < |s.notes| ==> !Matches(s.notes[i], s.selectedId)
  {
    if s.loading then LoadingPanel
    else if s.error != "" then ErrorPanel(s.error)
    else if s.isEditing then
      FormPanel(s.newTitle, s.newContent, if Truthy(s.selectedId) then SaveChanges else CreateNote)
    else
      match Find(s.notes, s.selectedId)
      case None => WelcomePanel
      case Some(n) => NoteView(n)
  }

  /** The view that shows a note always shows a note of the list, and it is
      the one whose id equals the selection. */
  lemma NoteViewShowsSelected(s: SessionState)
    requires MainPanel(s).NoteView?
    ensures MainPanel(s).note in s.notes
    ensures s.selectedId == Some(MainPanel(s).note.id)
  {
    var i :| IsFirstMatch(s.notes, s.selectedId, i) && s.notes[i] == MainPanel(s).note;
  }

  /** When the state is at rest (no request, no error, no form), the panel
      shows a note exactly when the selection names one in the list. */
  lemma AtRestShowsNoteOrWelcome(s: SessionState)
    requires !s.loading && s.error == "" && !s.isEditing
    ensures MainPanel(s).NoteView? || MainPanel(s).WelcomePanel?
    ensures MainPanel(s).NoteView? <==> exists n :: n in s.notes && Matches(n, s.selectedId)
  {
    if MainPanel(s).NoteView? {
      NoteViewShowsSelected(s);
    }
  }

  /** One line of the sidebar's list. */
  datatype SidebarEntry = SidebarEntry(id: Id, title: TitleLabel, snippet: string, selected: bool)

  /** The sidebar: "No notes" when the list is empty, then one entry per note. */
  datatype Sidebar = Sidebar(showsEmptyNotice: bool, entries: seq<SidebarEntry>)

  /** The entry rendered for `note`; it is highlighted when its id is the
      selection (strict equality, so a `null` selection highlights none). */
  function EntryOf(note: Note, sel: Option<Id>): SidebarEntry {
    SidebarEntry(note.id, TitleOf(note.title), Snippet(note.content), Matches(note, sel))
  }

  /** `Sidebar`: the entries follow the notes, in order, one to one. */
  function SidebarOf(s: SessionState): (v: Sidebar)
    ensures v.showsEmptyNotice <==> |s.notes| == 0
    ensures |v.entries| == |s.notes|
    ensures forall i :: 0 <= i < |s.notes| ==>
      v.entries[i].id == s.notes[i].id &&
      v.entries[i].snippet == Snippet(s.notes[i].content) &&
      v.entries[i].title == TitleOf(s.notes[i].title) &&
      (v.entries[i].selected <==> s.selectedId == Some(s.notes[i].id))
  {
    Sidebar(|s.notes| == 0, seq(|s.notes|, i requires 0 <= i < |s.notes| => EntryOf(s.notes[i], s.selectedId)))
  }

  /** With distinct ids, at most one entry of the sidebar is highlighted, and
      when the panel shows a note, it is that highlighted entry's note. */
  lemma {:induction false} SidebarHighlightAgreesWithPanel(s: SessionState)
    requires forall i, j :: 0 <= i < j < |s.notes| ==> s.notes[i].id != s.notes[j].id
    ensures forall i, j ::
      (0 <= i < |s.notes| && 0 <= j < |s.notes| &&
       SidebarOf(s).entries[i].selected && SidebarOf(s).entries[j].selected) ==> i == j
    ensures MainPanel(s).NoteView? ==>
      exists i :: 0 <= i < |s.notes| && SidebarOf(s).entries[i].selected && s.notes[i] == MainPanel(s).note
  {
    if MainPanel(s).NoteView? {
      var i :| IsFirstMatch(s.notes, s.selectedId, i) && s.notes[i] == MainPanel(s).note;
      assert SidebarOf(s).entries[i].selected;
    }
  }
}
