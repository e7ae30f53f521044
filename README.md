# Notes client session model

This project models the session logic of the `App` component of a small
React notes client (`notes_frontend/src/App.js`). The component talks to a
REST notes API and keeps eight pieces of state:

- the note list;
- the selected note id;
- the `loading` and `isEditing` flags;
- an error message;
- the title and content drafts of the edit form;
- the colour theme.

Its event handlers are the transitions of a small state machine:

- load all notes and load one note;
- select a note;
- start a new note and start editing;
- delete the selected note;
- save (create or update);
- cancel the form;
- toggle the theme;
- type into the two form fields.

Two read-only projections decide what the page shows. The main panel shows loading, an error, the form, a note or the welcome text. The sidebar lists the notes with their title and a 30-character snippet.

The model has six modules:

- `Notes` (notes.dfy): the values.
  - Ids are a JSON number or a JSON string, with JavaScript truthiness written out: `0` and `""` count as "no selection".
  - Notes, the theme, and the outcome of a request: `Ok(data)`, a non-ok response, or a thrown exception with its message.
  - The state record, and the invariant `Consistent`: no request is left in flight, and the drafts are empty while the form is closed.
- `NoteLists` (note_lists.dfy): the list expressions the handlers use.
  - `filter` by id for delete and `map` replacing by id for update.
  - `find` by the selected id, and the "first remaining note or none" reselection.
- `Text` (text.dfy):
  - JavaScript's `trim`, with ECMAScript's white-space set;
  - the sidebar's snippet rule;
  - the "(Untitled)" fallback.
- `Views` (views.dfy): the `MainPanel` precedence and the `Sidebar` entries.
- `Transitions` (transitions.dfy): each handler as a function from the state before it, the request's outcome and the user's confirmation to the state after it. Lemmas relate the result to what the panel shows.
- `Session` (session.dfy): class `NoteSession`, whose fields are the component's state hooks.
  - Each handler is a method that updates the fields step by step, in the order the handler calls its setters.
  - Each method is proved to end in exactly the state its transition function gives.

Requests, `window.confirm` and the user's typing are parameters of the methods. Each handler is one atomic step: the `loading` flag it raises is lowered again before it returns.

Behaviours of the code worth knowing:

- A failed request leaves the handler's fixed message ("Failed to load notes.", …) in `error` only when the response was not ok. A transport error or an unparsable body leaves the exception's own message, because every handler stores `err.message` (`notes_frontend/src/App.js:52-53`). This is modelled by `FailureMessage`.
- Whether something is selected follows JavaScript truthiness (`notes_frontend/src/App.js:49, 101, 112, 148`). If a note's id is `0` or `""`:
  - it cannot be edited or deleted;
  - saving it is treated as a create;
  - loading the list replaces it by the first note's id.
- `fetchNote` copies the returned note into the drafts without opening the form, so it is the one handler that can break `Consistent` (`FetchNoteCanFillClosedDrafts`). Nothing in the component calls it.
- `handleEditNote` does not clear `error`.

## Model

| member | source | states |
|---|---|---|
| Notes.Toggled | notes_frontend/src/App.js:191-195 | The theme updater always flips the theme. |
| NoteLists.Remove | notes_frontend/src/App.js:121 | Delete's filter keeps exactly the notes whose id differs from the deleted one. It never grows the list. The length is unchanged iff no note had that id. |
| NoteLists.RemoveAppend | notes_frontend/src/App.js:121 | Filtering distributes over concatenation, so the surviving notes keep their relative order. |
| NoteLists.RemoveAbsent | notes_frontend/src/App.js:121 | A list with no note carrying the id is returned unchanged. |
| NoteLists.Replace | notes_frontend/src/App.js:159-161 | The update's map keeps the length. Each position holds the returned note if its id equals the returned note's id, and its old note otherwise. |
| NoteLists.Find | notes_frontend/src/App.js:102 | `find` is none iff no note's id strictly equals the selection. Otherwise it returns the first note, in list order, whose id equals the selection. |
| NoteLists.FindAfterReplace | notes_frontend/src/App.js:159-162 | After an update whose id was in the list, looking up that id finds exactly the note the server returned. |
| NoteLists.NextSelectionIsFirstSurvivor | notes_frontend/src/App.js:122-126 | The reselection after a delete is none iff every note had the deleted id. Otherwise it is the id of the first note, in the old order, that survives. |
| Text.TrimStartDropsWhitePrefix | notes_frontend/src/App.js:140 | The start of `trim` is a suffix of the string. It does not begin with white space, and everything it dropped is white space. |
| Text.TrimEndDropsWhiteSuffix | notes_frontend/src/App.js:140 | The end of `trim` is a prefix of the string. It does not end with white space, and everything it dropped is white space. |
| Text.TrimIsInnerPiece | notes_frontend/src/App.js:140 | `trim` returns a contiguous piece of the string that neither starts nor ends with white space. Everything before and after it is white space. |
| Text.TrimEmptyIffBlank | notes_frontend/src/App.js:140-143 | `!title.trim()` holds iff every character of the title is white space. |
| Text.Snippet | notes_frontend/src/App.js:217-218 | Content of at most 30 characters is shown whole. Longer content shows its first 30 characters followed by "...", 33 characters in all. |
| Text.TitleOf | notes_frontend/src/App.js:215 | The title cell reads "(Untitled)" iff the title is empty, and shows the title otherwise. |
| Views.MainPanel | notes_frontend/src/App.js:228-293 | The panel is Loading iff loading. It is Error (with the message) iff not loading and the error is non-empty. It is the form iff neither and editing, with the drafts and the label "Save Changes" iff the selection is truthy. It is Welcome iff none of these holds and no note matches the selection. Otherwise it shows the first matching note. |
| Views.NoteViewShowsSelected | notes_frontend/src/App.js:283-297 | A shown note is a note of the list, and its id is the selection. |
| Views.AtRestShowsNoteOrWelcome | notes_frontend/src/App.js:282-293 | With no request, no error and no form, the panel shows a note iff some note's id equals the selection, and the welcome text otherwise. |
| Views.SidebarOf | notes_frontend/src/App.js:198-225 | "No notes" shows iff the list is empty. There is one entry per note, in order, with that note's id, title label and snippet. An entry is highlighted iff its id strictly equals the selection. |
| Views.SidebarHighlightAgreesWithPanel | notes_frontend/src/App.js:209-212 | With distinct ids at most one sidebar entry is highlighted. When the panel shows a note, a highlighted entry holds that note. |
| Transitions.FetchNotes | notes_frontend/src/App.js:40-57 | On success: the list becomes the response and the error is cleared. The first note's id is selected only if the selection was falsy and the response is non-empty. On failure: the list and the selection are unchanged and the error holds the failure's message. Loading ends false, and `Consistent` is preserved. |
| Transitions.FetchNotesShowsFirstNote | notes_frontend/src/App.js:48-51 | The first successful load with nothing selected and the form closed shows the response's first note. |
| Transitions.FetchNote | notes_frontend/src/App.js:64-79 | On success: the drafts get the returned title and content and the returned id is selected. On failure: only the error changes, to the failure's message. The list and the edit flag never change, and loading ends false. |
| Transitions.FetchNoteCanFillClosedDrafts | notes_frontend/src/App.js:70-73 | From a consistent state, a successful `fetchNote` can leave the drafts non-empty while the form is closed. |
| Transitions.SelectNote | notes_frontend/src/App.js:82-88 | The id becomes the selection, editing stops, and the drafts and the error are cleared. The list is untouched and `Consistent` is preserved. |
| Transitions.SelectNoteShowsChosenNote | notes_frontend/src/App.js:82-88 | After selecting, the panel shows a note with the chosen id if the list has one, and the welcome text otherwise. |
| Transitions.NewNote | notes_frontend/src/App.js:91-97 | Editing starts with no selection, and the drafts and the error are cleared. The list is untouched. When idle, the panel becomes an empty form labelled "Create Note". `Consistent` is preserved. |
| Transitions.EditNote | notes_frontend/src/App.js:100-108 | It changes nothing if the selection is falsy or names no note. Otherwise editing starts and the drafts get the first matching note's title and content. The selection, list and error are never changed. |
| Transitions.EditNoteOpensFormOnShownNote | notes_frontend/src/App.js:100-108 | Editing from a note view shows the form filled with that note, labelled "Save Changes". |
| Transitions.DeleteNote | notes_frontend/src/App.js:111-135 | With a falsy selection or a declined confirmation nothing changes. On success, every note with the selected id is removed and the first remaining note (or none) is selected. The form closes and the drafts are cleared. On failure, only the error changes, to the failure's message. Loading ends false and `Consistent` is preserved. |
| Transitions.DeleteSelectsFirstSurvivor | notes_frontend/src/App.js:121-126 | After a successful delete no note carries the deleted id. The new selection is the first survivor in the old order, and none iff nothing survived. The panel shows the first remaining note or the welcome text. |
| Transitions.DeleteMiddleSelectsFirst | notes_frontend/src/App.js:121-126 | Deleting the selected note 2 of [1, 2, 3] leaves [1, 3], selects note 1 and shows it. |
| Transitions.SaveNote | notes_frontend/src/App.js:138-185 | A blank title sets "Title cannot be empty." and changes nothing else. A successful create puts the returned note in front of the unchanged old list. A successful update replaces by id. On success the returned id is selected, the form closes and the drafts are cleared. On failure only the error changes, to the update or create message. Loading ends false and `Consistent` is preserved. |
| Transitions.SaveShowsReturnedNote | notes_frontend/src/App.js:159-179 | After a successful create, or an update whose id was listed, the panel shows the note the server returned. |
| Transitions.Cancel | notes_frontend/src/App.js:268-273 | The form closes, and the drafts and the error are cleared. The list, selection and loading flag stay. The result is `Consistent` iff the state was idle. |
| Transitions.CancelReturnsToView | notes_frontend/src/App.js:268-273 | Cancelling a create, which had cleared the selection, shows the welcome text. Cancelling with a listed selection shows that note. |
| Transitions.ToggleTheme | notes_frontend/src/App.js:191-195 | Only the theme changes, it changes, and toggling again restores it. |
| Transitions.SetDraftTitle | notes_frontend/src/App.js:249 | Only the draft title changes, to the typed text. `Consistent` is kept while the form is open. |
| Transitions.SetDraftContent | notes_frontend/src/App.js:258 | Only the draft content changes, to the typed text. `Consistent` is kept while the form is open. |
| Session.NoteSession.constructor | notes_frontend/src/App.js:11-20 | The state hooks start from their initial values, which are `Consistent`. |
| Session.NoteSession.FetchNotes | notes_frontend/src/App.js:40-57 | The handler's steps end in the state `Transitions.FetchNotes` gives. |
| Session.NoteSession.FetchNote | notes_frontend/src/App.js:64-79 | The handler's steps end in the state `Transitions.FetchNote` gives. |
| Session.NoteSession.SelectNote | notes_frontend/src/App.js:82-88 | The handler's steps end in the state `Transitions.SelectNote` gives. |
| Session.NoteSession.NewNote | notes_frontend/src/App.js:91-97 | The handler's steps end in the state `Transitions.NewNote` gives. |
| Session.NoteSession.EditNote | notes_frontend/src/App.js:100-108 | The handler's steps end in the state `Transitions.EditNote` gives. |
| Session.NoteSession.DeleteNote | notes_frontend/src/App.js:111-135 | The handler's steps, with the reselection computed from the list captured at the call, end in the state `Transitions.DeleteNote` gives. |
| Session.NoteSession.SaveNote | notes_frontend/src/App.js:138-185 | The handler's steps end in the state `Transitions.SaveNote` gives. |
| Session.NoteSession.Cancel | notes_frontend/src/App.js:268-273 | The handler's steps end in the state `Transitions.Cancel` gives. |
| Session.NoteSession.SetDraftTitle | notes_frontend/src/App.js:249 | The handler ends in the state `Transitions.SetDraftTitle` gives. |
| Session.NoteSession.SetDraftContent | notes_frontend/src/App.js:258 | The handler ends in the state `Transitions.SetDraftContent` gives. |
| Session.NoteSession.ToggleTheme | notes_frontend/src/App.js:191-195 | The handler ends in the state `Transitions.ToggleTheme` gives. |

## Left out

- Network I/O is not modelled: `fetch`, the HTTP status test, JSON parsing and the request bodies. Each request is an `Outcome` parameter. The model assumes that a parsed body has the `{id, title, content}` shape.
- `window.confirm` is a boolean parameter of `DeleteNote`.
- The `API_BASE` environment lookup is not modelled.
- The effect that writes the theme to the document element is not modelled.
- The footer's current year is not modelled.
- React's scheduling is not modelled:
  - each handler is one atomic step;
  - nothing interleaves overlapping requests;
  - `loading` is never observed while a request is in flight.
- Session.NoteSession.DeleteNote: the stale closure list equals the current list, since no other step can run in between. A race that makes the two differ is not modelled.
- Transitions.FetchNotes: reads the selection current at the call. The component calls `fetchNotes` only from the mount effect (`notes_frontend/src/App.js:28-30`), whose closure always sees the initial `null` selection. The clause that keeps a truthy selection therefore has no counterpart in the component, which never reloads. If the first load overlaps a create, the component replaces the selection; that interleaving is not modelled.
- Session.NoteSession.constructor: it sets the initial state only. The mount effect that then runs `fetchNotes` is the separate `FetchNotes` call.
- Rendering details are not modelled:
  - markup and CSS classes;
  - the 120-character `maxLength` of the title input;
  - `autoFocus`;
  - the "(No content)" placeholder in the note view;
  - the theme button's label.
- Text.Snippet: counts Unicode scalar values, where JavaScript's `slice` counts UTF-16 code units, so a snippet of content outside the Basic Multilingual Plane can differ.
- Notes.Id: numeric ids are integers. Fractional, `NaN` and negative-zero ids are not modelled.
