/**
 * The note board page: the list of notes and the two fields that decide
 * whether the add button or the form is shown and where a submit goes
 * (`Board`), and the page together with the form component it mounts and
 * unmounts (`Page`).
 */
module Index {
  import opened Wrappers
  import opened Notes
  import NoteForm
  import StarRating

  /** The toast each handler raises; the delete toast is the destructive variant. */
  datatype Toast = NoteAdded | NoteUpdated | NoteDeleted

  /** The page's own state and its handlers. */
  class Board {
    var notes: seq<Note>
    var isAdding: bool
    var editingNote: Option<Note>

    /** The page opens with no notes, not adding and not editing. */
    constructor ()
      ensures notes == [] && !isAdding && editingNote == None
    {
      notes, isAdding, editingNote := [], false, None;
    }

    /**
     * The "no feedback notes yet" message: an empty list while not adding.
     * It ignores `editingNote`, so it can stand beside an edit form whose
     * note has been deleted, when that deletion emptied the list.
     */
    predicate EmptyMessageShown()
      reads this
      ensures EmptyMessageShown() ==> |notes| == 0
    {
      |notes| == 0 && !isAdding
    }

    /**
     * The "Add Note" button is rendered when neither adding nor editing; while
     * it is, the empty message is shown exactly when the list is empty.
     */
    predicate AddButtonShown()
      reads this
      ensures AddButtonShown() ==> (EmptyMessageShown() <==> |notes| == 0)
    {
      !isAdding && editingNote.None?
    }

    /**
     * The form is rendered when adding or editing: exactly when the add button
     * is not. The empty message appears beside it only while editing.
     */
    predicate FormShown()
      reads this
      ensures FormShown() <==> !AddButtonShown()
      ensures FormShown() && EmptyMessageShown() ==> editingNote.Some?
    {
      isAdding || editingNote.Some?
    }

    /** The add button's click: `setIsAdding(true)`. */
    method StartAdding()
      modifies this
      ensures isAdding
      ensures notes == old(notes) && editingNote == old(editingNote)
    {
      isAdding := true;
    }

    /** A card's edit click: `setEditingNote(note)`; `isAdding` is left as it is. */
    method StartEditing(n: Note)
      modifies this
      ensures editingNote == Some(n)
      ensures notes == old(notes) && isAdding == old(isAdding)
    {
      editingNote := Some(n);
    }

    /**
     * `handleAddNote`: the note built from the draft, the generated id and the
     * current time goes in front; adding ends.
     */
    method AddNote(d: Draft, id: string, ts: Timestamp) returns (toast: Toast)
      modifies this
      ensures notes == Prepend(old(notes), d, id, ts)
      ensures !isAdding && editingNote == old(editingNote)
      ensures UniqueIds(old(notes)) && id !in Ids(old(notes)) ==> UniqueIds(notes)
      ensures toast == NoteAdded
    {
      if UniqueIds(notes) && id !in Ids(notes) {
        PrependKeepsUnique(notes, d, id, ts);
      }
      notes := Prepend(notes, d, id, ts);
      isAdding := false;
      toast := NoteAdded;
    }

    /**
     * `handleEditNote`: without a note being edited nothing happens; otherwise
     * every note with the edited note's id takes the draft fields, editing
     * ends and `isAdding` is left as it is.
     */
    method EditNote(d: Draft) returns (toast: Option<Toast>)
      modifies this
      ensures old(editingNote).None? ==>
                notes == old(notes) && isAdding == old(isAdding) && editingNote == None && toast == None
      ensures old(editingNote).Some? ==>
                notes == EditById(old(notes), old(editingNote).value.id, d) &&
                isAdding == old(isAdding) && editingNote == None && toast == Some(NoteUpdated)
    {
      if editingNote.None? {
        return None;
      }
      notes := EditById(notes, editingNote.value.id, d);
      editingNote := None;
      toast := Some(NoteUpdated);
    }

    /** `handleDeleteNote`: every note with that id goes; the edit session is left alone. */
    method DeleteNote(id: string) returns (toast: Toast)
      modifies this
      ensures notes == RemoveById(old(notes), id)
      ensures isAdding == old(isAdding) && editingNote == old(editingNote)
      ensures UniqueIds(old(notes)) ==> UniqueIds(notes)
      ensures toast == NoteDeleted
    {
      if UniqueIds(notes) {
        RemoveKeepsUnique(notes, id);
      }
      notes := RemoveById(notes, id);
      toast := NoteDeleted;
    }

    /** The form's cancel: `setIsAdding(false)` and `setEditingNote(null)`. */
    method Cancel()
      modifies this
      ensures !isAdding && editingNote == None
      ensures notes == old(notes)
    {
      isAdding := false;
      editingNote := None;
    }

    /** The form's submit: to `handleEditNote` while a note is being edited, else to `handleAddNote`. */
    method Submit(d: Draft, id: string, ts: Timestamp) returns (toast: Toast)
      modifies this
      ensures old(editingNote).Some? ==>
                notes == EditById(old(notes), old(editingNote).value.id, d) &&
                isAdding == old(isAdding) && editingNote == None && toast == NoteUpdated
      ensures old(editingNote).None? ==>
                notes == Prepend(old(notes), d, id, ts) &&
                !isAdding && editingNote == None && toast == NoteAdded
    {
      if editingNote.Some? {
        var t := EditNote(d);
        toast := t.value;
      } else {
        toast := AddNote(d, id, ts);
      }
    }
  }

  /**
   * The page with its form component. The form is mounted when it starts to
   * be shown and takes its initial values then; while it stays shown it keeps
   * its own state, even when the note being edited changes underneath it.
   */
  class Page {
    const board: Board
    var form: NoteForm.Form?

    /** A form object exists exactly while the board shows the form. */
    ghost predicate Valid()
      reads this, board
    {
      (form != null) == board.FormShown()
    }

    constructor ()
      ensures Valid() && fresh(board) && form == null
      ensures board.notes == [] && !board.isAdding && board.editingNote == None
    {
      board := new Board();
      form := null;
    }

    /** Clicking "Add Note": adding starts and an empty, unrated form is mounted. */
    method ClickAdd()
      requires Valid() && board.AddButtonShown()
      modifies this, board
      ensures Valid() && form != null && fresh(form)
      ensures form.Current() == NoteForm.InitialDraft(None)
      ensures board.notes == old(board.notes) && board.isAdding && board.editingNote == None
    {
      board.StartAdding();
      form := new NoteForm.Form(None);
    }

    /**
     * Clicking a card's edit button. A form mounted now starts from the note;
     * a form already shown (adding, or editing another note) keeps its draft.
     */
    method ClickEdit(n: Note)
      requires Valid() && n in board.notes
      modifies this, board
      ensures Valid() && form != null
      ensures board.editingNote == Some(n)
      ensures board.notes == old(board.notes) && board.isAdding == old(board.isAdding)
      ensures old(form) == null ==> fresh(form) && form.Current() == NoteForm.InitialDraft(Some(n))
      ensures old(form) != null ==> form == old(form) && form.Current() == old(form.Current())
    {
      board.StartEditing(n);
      if form == null {
        form := new NoteForm.Form(Some(n));
      }
    }

    /** Clicking a card's delete button; the form and the edit session stay as they are. */
    method ClickDelete(id: string) returns (toast: Toast)
      requires Valid() && id in Ids(board.notes)
      modifies board
      ensures Valid() && form == old(form)
      ensures form != null ==> form.Current() == old(form.Current())
      ensures board.notes == RemoveById(old(board.notes), id)
      ensures board.isAdding == old(board.isAdding) && board.editingNote == old(board.editingNote)
      ensures toast == NoteDeleted
    {
      toast := board.DeleteNote(id);
    }

    /** Typing in the form's title input. */
    method TypeTitle(t: string)
      requires Valid() && form != null
      modifies form
      ensures Valid()
      ensures form.Current() == old(form.Current()).(title := t)
    {
      form.SetTitle(t);
    }

    /** Typing in the form's description text area. */
    method TypeDescription(t: string)
      requires Valid() && form != null
      modifies form
      ensures Valid()
      ensures form.Current() == old(form.Current()).(description := t)
    {
      form.SetDescription(t);
    }

    /**
     * Clicking the star at `index` in the form. The star button has no `type`,
     * so besides setting the rating it submits the form: the draft with the
     * new rating is routed by the board exactly as a save would route it.
     */
    method ClickStar(index: int, id: string, ts: Timestamp) returns (toast: Toast)
      requires Valid() && form != null
      requires 0 <= index < StarRating.StarCount
      modifies this, board, form
      ensures Valid()
      ensures old(board.editingNote).Some? ==>
                board.notes == EditById(old(board.notes), old(board.editingNote).value.id,
                                        old(form.Current()).(rating := index + 1)) &&
                board.isAdding == old(board.isAdding) && board.editingNote == None && toast == NoteUpdated
      ensures old(board.editingNote).None? ==>
                board.notes == Prepend(old(board.notes), old(form.Current()).(rating := index + 1), id, ts) &&
                !board.isAdding && board.editingNote == None && form == null && toast == NoteAdded
      ensures form != null ==> form == old(form) && form.Current() == old(form.Current()).(rating := index + 1)
    {
      ghost var f, before := form, form.Current();
      var d := form.ChooseStar(index);
      assert d == before.(rating := index + 1) && Valid();
      toast := SubmitDraft(d, id, ts);
      assert form != null ==> form == f && form.Current() == d;
    }

    /**
     * Clicking "Save": the form's draft is routed by the board; the form is
     * unmounted if the board no longer shows it, and otherwise keeps its draft.
     */
    method ClickSave(id: string, ts: Timestamp) returns (toast: Toast)
      requires Valid() && form != null
      modifies this, board
      ensures Valid()
      ensures old(board.editingNote).Some? ==>
                board.notes == EditById(old(board.notes), old(board.editingNote).value.id, old(form.Current())) &&
                board.isAdding == old(board.isAdding) && board.editingNote == None && toast == NoteUpdated
      ensures old(board.editingNote).None? ==>
                board.notes == Prepend(old(board.notes), old(form.Current()), id, ts) &&
                !board.isAdding && board.editingNote == None && form == null && toast == NoteAdded
      ensures form != null ==> form == old(form) && form.Current() == old(form.Current())
    {
      var d := form.Submit();
      toast := SubmitDraft(d, id, ts);
    }

    /**
     * The form's `onSubmit`: the emitted draft goes to the board's routing,
     * and the form is unmounted if the board no longer shows it.
     */
    method SubmitDraft(d: Draft, id: string, ts: Timestamp) returns (toast: Toast)
      requires Valid() && form != null
      modifies this, board
      ensures Valid()
      ensures old(board.editingNote).Some? ==>
                board.notes == EditById(old(board.notes), old(board.editingNote).value.id, d) &&
                board.isAdding == old(board.isAdding) && board.editingNote == None && toast == NoteUpdated
      ensures old(board.editingNote).None? ==>
                board.notes == Prepend(old(board.notes), d, id, ts) &&
                !board.isAdding && board.editingNote == None && form == null && toast == NoteAdded
      ensures form != null ==> form == old(form)
    {
      toast := board.Submit(d, id, ts);
      if !board.FormShown() {
        form := null;
      }
    }

    /** Clicking "Cancel": adding and editing both end and the form is unmounted. */
    method ClickCancel()
      requires Valid() && form != null
      modifies this, board
      ensures Valid() && form == null
      ensures board.notes == old(board.notes) && !board.isAdding && board.editingNote == None
    {
      board.Cancel();
      form := null;
    }
  }

  /**
   * Adding a note, then opening the add form again, typing a title and
   * clicking the note's edit button: the form keeps the typed draft, the
   * save writes it into the edited note, and the add form is shown again
   * afterwards, still holding that draft.
   */
  method EditWhileAdding(first: string, typed: string, id: string, ts: Timestamp)
    returns (notes: seq<Note>, formShown: bool, leftover: Draft)
    ensures notes == [Note(id, typed, "", 0, ts)]
    ensures formShown && leftover == Draft(typed, "", 0)
  {
    var page := new Page();
    page.ClickAdd();
    page.TypeTitle(first);
    var _ := page.ClickSave(id, ts);
    assert page.board.notes == [Note(id, first, "", 0, ts)];

    page.ClickAdd();
    page.TypeTitle(typed);
    page.ClickEdit(page.board.notes[0]);
    var _ := page.ClickSave(id, ts);

    notes := page.board.notes;
    formShown := page.board.FormShown();
    leftover := page.form.Current();
  }

  /**
   * Opening a note for editing and deleting it before saving: the empty
   * message and the edit form are shown together, and the save then changes
   * no note yet still reports an update.
   */
  method DeleteWhileEditing(id: string, ts: Timestamp)
    returns (emptyBesideForm: bool, notes: seq<Note>, toast: Toast)
    ensures emptyBesideForm
    ensures notes == [] && toast == NoteUpdated
  {
    var page := new Page();
    page.ClickAdd();
    var _ := page.ClickSave(id, ts);
    var n := page.board.notes[0];
    assert n.id == id;

    page.ClickEdit(n);
    assert Ids(page.board.notes)[0] == id;
    var _ := page.ClickDelete(id);
    emptyBesideForm := page.board.EmptyMessageShown() && page.board.FormShown();

    toast := page.ClickSave(id, ts);
    notes := page.board.notes;
  }

  /**
   * Opening the add form, typing a title and clicking the third star: the
   * star click submits the form, so the note is added at once with that
   * rating and the form closes.
   */
  method StarClickAdds(typed: string, id: string, ts: Timestamp)
    returns (notes: seq<Note>, formShown: bool, toast: Toast)
    ensures notes == [Note(id, typed, "", 3, ts)]
    ensures !formShown && toast == NoteAdded
  {
    var page := new Page();
    page.ClickAdd();
    page.TypeTitle(typed);
    toast := page.ClickStar(2, id, ts);
    notes := page.board.notes;
    formShown := page.board.FormShown();
  }
}
