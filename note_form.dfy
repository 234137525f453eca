/**
 * The note form: three pieces of component state (title, description,
 * rating), set once when the form is mounted and then overwritten by the
 * inputs and the star widget; a submit hands the current three values on.
 */
module NoteForm {
  import opened Wrappers
  import opened Notes
  import StarRating

  /** The draft a freshly mounted form starts from: the note being edited, or empty and unrated. */
  function InitialDraft(initialNote: Option<Note>): (d: Draft)
    ensures initialNote.None? ==> d.title == "" && d.description == "" && d.rating == 0
    ensures initialNote.Some? ==> d == DraftOf(initialNote.value)
  {
    match initialNote
    case None => Draft("", "", 0)
    case Some(n) => DraftOf(n)
  }

  /** Opening a note in the form and saving it untouched leaves the note as it was. */
  lemma InitialDraftRoundTrip(n: Note)
    ensures WithDraft(n, InitialDraft(Some(n))) == n
  {
    WithOwnDraft(n);
  }

  class Form {
    var title: string
    var description: string
    var rating: int

    /** The values the form currently holds. */
    function Current(): Draft
      reads this
    {
      Draft(title, description, rating)
    }

    /** Mounting the form: each field from `initialNote`, or `""`, `""`, `0`. */
    constructor (initialNote: Option<Note>)
      ensures Current() == InitialDraft(initialNote)
    {
      var d := InitialDraft(initialNote);
      title, description, rating := d.title, d.description, d.rating;
    }

    /** Typing in the title input. */
    method SetTitle(t: string)
      modifies this
      ensures Current() == old(Current()).(title := t)
    {
      title := t;
    }

    /** Typing in the description text area. */
    method SetDescription(t: string)
      modifies this
      ensures Current() == old(Current()).(description := t)
    {
      description := t;
    }

    /**
     * Clicking the star at `index` in the form's (editable) star widget. The
     * rating becomes that star's value and the text fields stay. The star is a
     * `<button>` without a `type` inside the `<form>`, so the click also
     * submits the form: the draft it emits, with the new rating, is returned.
     */
    method ChooseStar(index: int) returns (emitted: Draft)
      requires 0 <= index < StarRating.StarCount
      modifies this
      ensures Current() == old(Current()).(rating := StarRating.Stars()[index])
      ensures 1 <= rating <= StarRating.StarCount
      ensures emitted == Current()
    {
      var reported := StarRating.Click(index, false, true);
      rating := reported.value;
      emitted := Submit();
    }

    /** The submit handler: exactly the current title, description and rating. */
    method Submit() returns (d: Draft)
      ensures d.title == title && d.description == description && d.rating == rating
    {
      d := Draft(title, description, rating);
    }
  }
}
