/** Values shared by the whole notes client: identifiers, notes, the theme,
    the outcome of a request to the notes API and the session's state record. */
module Notes {

  datatype Option<+T> = None | Some(value: T)

  /** A server-assigned note identifier. The client accepts either a JSON
      number or a JSON string; JavaScript's `===` tells `1` and `"1"` apart,
      and so does datatype equality here. */
  datatype Id = Num(n: int) | Str(s: string)

  /** JavaScript truthiness of an identifier: `0` and `""` are falsy. */
  predicate TruthyId(id: Id) {
    match id
    case Num(n) => n != 0
    case Str(s) => s != ""
  }

  /** Truthiness of the `selectedNoteId` state, where `null` is `None`. */
  predicate Truthy(sel: Option<Id>) {
    sel.Some? && TruthyId(sel.value)
  }

  datatype Note = Note(id: Id, title: string, content: string)

  datatype Theme = Light | Dark

  /** The updater passed to `setTheme` by the theme toggle. */
  function Toggled(t: Theme): (r: Theme)
    ensures r != t
  {
    if t == Light then Dark else Light
  }

  /** What a `fetch` against the notes API ends in: a response whose `ok` is
      true together with the parsed body, a response whose `ok` is false, or
      an exception (transport error or unparsable body) with its message. */
  datatype Outcome<+T> = Ok(value: T) | NotOk | Thrown(message: string)

  const LoadNotesFailed := "Failed to load notes."
  const NoteNotFound := "Note not found."
  const DeleteFailed := "Failed to delete note."
  const UpdateFailed := "Failed to update note."
  const CreateFailed := "Failed to create note."
  const EmptyTitle := "Title cannot be empty."

  /** The message a failed request leaves in `error`: a non-ok response
      throws an Error carrying the handler's fixed message, any other
      exception keeps its own message. */
  function FailureMessage<T>(o: Outcome<T>, fixed: string): string
    requires !o.Ok?
  {
    if o.NotOk? then fixed else o.message
  }

  /** The component's state hooks, as one value. */
  datatype SessionState = SessionState(
    theme: Theme,
    notes: seq<Note>,
    selectedId: Option<Id>,
    loading: bool,
    error: string,
    isEditing: bool,
    newTitle: string,
    newContent: string)

  /** The values the `useState` calls start from. */
  const Initial := SessionState(Light, [], None, false, "", false, "", "")

  /** No request is in flight. */
  predicate Idle(s: SessionState) {
    !s.loading
  }

  /** The drafts hold text only while the edit form is open. */
  predicate DraftsOnlyWhileEditing(s: SessionState) {
    !s.isEditing ==> s.newTitle == "" && s.newContent == ""
  }

  /** The invariant every handler but `fetchNote` keeps: no request is left
      in flight, and the drafts are empty unless the form is open. */
  predicate Consistent(s: SessionState) {
    Idle(s) && DraftsOnlyWhileEditing(s)
  }
}
