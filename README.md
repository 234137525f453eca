# Feedback notes board — a Dafny model

This project models the in-memory note board of the "feedback friend" web
app: a single page that lists short feedback notes (title, description,
a 0–5 star rating, 0 when no star was chosen), lets the user add, edit and delete them, and shows an
"Add Note" button, a note form or an empty-list message depending on the
page state: `isAdding` and `editingNote` decide the button and the form,
and the empty message depends on `isAdding` and on the note list.

Files and modules:

- `wrappers.dfy` — `Wrappers.Option`, standing for `T | null` / `T | undefined`.
- `notes.dfy` — `Notes`: the `Note` record, the `Draft` the form submits
  (`Omit<Note, "id" | "timestamp">`), and the three list transforms the page
  applies: spread-prepend (add), `map` by id (edit), `filter` by id (delete),
  with their lemmas (order kept, nothing else changed, id uniqueness kept
  when the new id is fresh, an edit of a deleted note changes nothing).
- `star_rating.dfy` — `StarRating`: the five star values, the fill rule
  `star <= rating`, the count of filled stars, and what a click reports.
- `note_form.dfy` — `NoteForm`: the form's three state fields as a class,
  their initialisation from `initialNote`, the setters, and the submit.
- `index.dfy` — `Index`: `Board`, the page's own state (`notes`, `isAdding`,
  `editingNote`) with one method per handler and the three visibility
  conditions; `Page`, the board together with the form component it
  mounts, where the form takes its initial values only when it is mounted
  and keeps its own state while it stays on screen; and three client methods
  whose contracts state what the quirks below lead to.

The id (`Math.random().toString(36).substr(2, 9)`) and the timestamp
(`new Date()`) are parameters of the add operations. Ids are not guaranteed
unique by the app; uniqueness appears only as a hypothesis of the lemmas that
keep it.

Behaviour reproduced as the code has it (not corrected):

- Clicking edit does not clear `isAdding`, and saving an edit only clears
  `editingNote`, so the add form comes back after an edit started while
  adding. Because the form stays mounted through that switch, it keeps the
  draft typed for the add, and the save writes that draft into the edited
  note (`Index.EditWhileAdding`). The same holds when editing a second note
  while the first one's form is open.
- Deleting a note leaves `editingNote` alone; a later save of that edit
  changes no note but still raises the "Note updated" toast, and when the
  deletion emptied the list and no add was in progress, the empty-list message (which ignores
  `editingNote`) is shown beside the form (`Index.DeleteWhileEditing`,
  `Notes.EditAfterRemove`).
- The star buttons are `<button>` elements without a `type` inside the
  form, so a star click is also a submit: it sets the rating and at once
  adds or saves the note with it (`Index.Page.ClickStar`,
  `Index.StarClickAdds`).

The page keeps its notes in local component state; it has no remote store
and no filter or sort mode.

## Model

| member | source | states |
|---|---|---|
| `Notes.NewNote` | src/pages/Index.tsx:16-21 | the added note carries the draft's title, description and rating unchanged, with the supplied id and timestamp |
| `Notes.Prepend` | src/pages/Index.tsx:22 | the new list is one longer, the new note is first, the old notes follow in their order, and the id list gains the new id in front |
| `Notes.PrependKeepsUnique` | src/pages/Index.tsx:19-22 | adding under an id not already present keeps all ids distinct |
| `Notes.PrependDuplicateId` | src/pages/Index.tsx:19-22 | adding under an id already present breaks uniqueness, so uniqueness depends on the generated id |
| `Notes.WithDraft` | src/pages/Index.tsx:34 | `{ ...note, ...noteData }` keeps id and timestamp and takes exactly the draft's title, description and rating |
| `Notes.WithOwnDraft` | src/pages/Index.tsx:34 | merging a note's own draft fields back gives the same note |
| `Notes.EditById` | src/pages/Index.tsx:32-36 | same length; a note with another id is identical; a note with the id keeps id and timestamp and takes the draft fields |
| `Notes.EditKeepsIds` | src/pages/Index.tsx:32-36 | the edit keeps the id at every position, and uniqueness holds after iff before |
| `Notes.EditAbsentId` | src/pages/Index.tsx:32-36 | editing an id that no note carries leaves the list unchanged |
| `Notes.EditIdempotent` | src/pages/Index.tsx:32-36 | applying the same edit twice equals applying it once |
| `Notes.RemoveById` | src/pages/Index.tsx:46 | the result holds exactly the notes of the list whose id differs; no note with the id remains; it is shorter when the id was present (absent ids: `Notes.RemoveAbsentId`) |
| `Notes.RemoveAbsentId` | src/pages/Index.tsx:46 | deleting an absent id leaves the list unchanged |
| `Notes.RemoveAppend` | src/pages/Index.tsx:46 | deleting distributes over concatenation, so survivors keep their relative order |
| `Notes.RemoveUniqueAt` | src/pages/Index.tsx:46 | with unique ids, deleting the id at position k gives the list with exactly position k cut out |
| `Notes.RemoveKeepsUnique` | src/pages/Index.tsx:46 | deleting keeps ids distinct |
| `Notes.EditAfterRemove` | src/pages/Index.tsx:30-46 | an edit whose target id was deleted changes no note |
| `Notes.RemoveAfterEdit` | src/pages/Index.tsx:32-46 | deleting a note discards whatever an earlier edit of it wrote |
| `StarRating.Stars` | src/components/StarRating.tsx:13 | exactly five stars, with values 1 to 5 in ascending order |
| `StarRating.FillPattern` | src/components/StarRating.tsx:13-27 | star i + 1 is drawn filled iff i + 1 <= rating |
| `StarRating.FilledCount` | src/components/StarRating.tsx:13-27 | the number of filled stars is the rating clamped to 0..5; rating 0 or less fills none |
| `StarRating.FillMonotone` | src/components/StarRating.tsx:24 | every star filled at r1 is filled at any r2 >= r1 |
| `StarRating.Click` | src/components/StarRating.tsx:16-17 | a click reports a value iff the widget is not read-only and has a handler; the value is the clicked star's, in 1..5 |
| `StarRating.ClickFillsUpTo` | src/components/StarRating.tsx:16-24 | after a click on star k the fill shows exactly stars 1..k |
| `NoteForm.InitialDraft` | src/components/NoteForm.tsx:18-20 | without an initial note the draft is "", "", 0; with one it is exactly that note's title, description and rating |
| `NoteForm.InitialDraftRoundTrip` | src/components/NoteForm.tsx:18-24 | opening a note in the form and saving it untouched leaves the note unchanged |
| `NoteForm.Form.constructor` | src/components/NoteForm.tsx:18-20 | a mounted form holds the initial draft |
| `NoteForm.Form.SetTitle` | src/components/NoteForm.tsx:39 | typing replaces the title and nothing else |
| `NoteForm.Form.SetDescription` | src/components/NoteForm.tsx:47 | typing replaces the description and nothing else |
| `NoteForm.Form.ChooseStar` | src/components/NoteForm.tsx:34-52 | a star click sets the rating to the clicked star's value, in 1..5, title and description unchanged; since the star button has no `type`, the click also fires the form's submit, which emits the updated draft |
| `NoteForm.Form.Submit` | src/components/NoteForm.tsx:22-25 | submit emits exactly the current title, description and rating (a `Draft`, which has no id or timestamp) |
| `Index.Board.constructor` | src/pages/Index.tsx:11-13 | the page starts with no notes, not adding, not editing |
| `Index.Board.EmptyMessageShown` | src/pages/Index.tsx:95 | the empty message is shown only for an empty list |
| `Index.Board.AddButtonShown` | src/pages/Index.tsx:65 | while the add button is shown, the empty message is shown exactly when the list is empty |
| `Index.Board.FormShown` | src/pages/Index.tsx:65-73 | the form is shown iff the add button is not (never both, never neither), and the empty message appears beside the form only while editing |
| `Index.Board.StartAdding` | src/pages/Index.tsx:66 | the add click sets `isAdding` and changes nothing else |
| `Index.Board.StartEditing` | src/pages/Index.tsx:89 | the edit click sets `editingNote` and leaves `isAdding` and the notes alone |
| `Index.Board.AddNote` | src/pages/Index.tsx:16-28 | notes become the prepended list; `isAdding` false; `editingNote` unchanged; uniqueness kept for a fresh id; "Note added" |
| `Index.Board.EditNote` | src/pages/Index.tsx:30-43 | with no edited note, nothing changes and no toast; otherwise notes are edited by the edited note's id, `editingNote` null, `isAdding` as before, "Note updated" |
| `Index.Board.DeleteNote` | src/pages/Index.tsx:45-52 | notes become the filtered list, the session fields are untouched, uniqueness kept, "Note deleted" |
| `Index.Board.Cancel` | src/pages/Index.tsx:77-80 | cancel clears `isAdding` and `editingNote` and keeps the notes |
| `Index.Board.Submit` | src/pages/Index.tsx:76 | a submit goes to edit iff a note is being edited, otherwise to add |
| `Index.Page.constructor` | src/pages/Index.tsx:11-13 | the page starts consistent, with no form mounted |
| `Index.Page.ClickAdd` | src/pages/Index.tsx:65-75 | from the add button, adding starts and a fresh empty form is mounted |
| `Index.Page.ClickEdit` | src/pages/Index.tsx:73-89 | editing starts on the note; a newly mounted form starts from it, an already shown form keeps its draft |
| `Index.Page.ClickDelete` | src/pages/Index.tsx:45-90 | the note list is filtered; the form, its draft and the session fields are kept |
| `Index.Page.TypeTitle` | src/components/NoteForm.tsx:39 | the mounted form's title changes and nothing else |
| `Index.Page.TypeDescription` | src/components/NoteForm.tsx:47 | the mounted form's description changes and nothing else |
| `Index.Page.ClickStar` | src/components/StarRating.tsx:14-17 | the click sets the form's rating to the star's value and submits the form: the draft with that rating is added in front (adding ends, the form is unmounted) or written into the edited note (editing ends; a form still shown keeps the draft with the new rating) |
| `Index.Page.ClickSave` | src/pages/Index.tsx:73-82 | the form's draft is routed to edit or add; the form is unmounted when no longer shown and otherwise keeps its draft |
| `Index.Page.SubmitDraft` | src/pages/Index.tsx:73-82 | an emitted draft goes to edit iff a note is being edited, else to add; the form is unmounted exactly when the board stops showing it |
| `Index.Page.ClickCancel` | src/pages/Index.tsx:77-81 | both session fields clear and the form is unmounted |
| `Index.EditWhileAdding` | src/pages/Index.tsx:73-89 | an edit clicked while adding saves the typed add draft into the edited note, and the add form reappears still holding it |
| `Index.StarClickAdds` | src/components/NoteForm.tsx:34-52 | in the add form, typing a title and clicking the third star adds the note at once with rating 3 and closes the form |
| `Index.DeleteWhileEditing` | src/pages/Index.tsx:45-95 | deleting the note under edit shows the empty message beside the form; the save then changes nothing yet reports "Note updated" |

## Left out

- Toasts are recorded only by kind (`NoteAdded`, `NoteUpdated`, `NoteDeleted`); their titles, texts and display are presentation.
- `Math.random` ids and `new Date()` timestamps are caller-supplied parameters; the nine-character base-36 format of the id is not modelled.
- The `Note` type file is not part of this model; a note is taken to hold exactly id, title, description, rating and timestamp, and the timestamp is an opaque number. The card reads a `created_at` field that the page never writes; the card is not part of this model.
- Ratings are integers; the JavaScript `number` type would also admit fractions, which the form never produces.
- The "AI Assist" button's handler is an unimplemented stub that only logs; it is not modelled.
- `e.preventDefault()` in the submit handler and all layout and styling are browser concerns and are not modelled.
- A star click is modelled as the rating update followed by the submit, with the submit seeing the clicked rating; this relies on React applying the click's state update before the form's submit event is handled.
- React re-renders, batching of state updates and the closure over `editingNote` are modelled as immediate sequential field updates.
- The authentication page and the note card component are not part of this model.
