/**
 * The note record of the feedback board and the three list transforms the
 * page applies to its note list: prepend (add), map-by-id (edit) and
 * filter-by-id (delete).
 */
module Notes {

  /** The creation time of a note (a JavaScript `Date`), kept as an opaque number. */
  type Timestamp = int

  /** A note as the page stores it. */
  datatype Note = Note(id: string, title: string, description: string, rating: int, timestamp: Timestamp)

  /** What the form submits: a note without its `id` and `timestamp`. */
  datatype Draft = Draft(title: string, description: string, rating: int)

  /** The draft fields of a note. */
  function DraftOf(n: Note): Draft
  {
    Draft(n.title, n.description, n.rating)
  }

  /** The ids of a note list, position by position. */
  function Ids(notes: seq<Note>): (ids: seq<string>)
  {
    seq(|notes|, i requires 0 <= i < |notes| => notes[i].id)
  }

  /** No two notes of the list share an id. */
  predicate UniqueIds(notes: seq<Note>)
  {
    forall i, j :: 0 <= i < j < |notes| ==> notes[i].id != notes[j].id
  }

  // ---------------------------------------------------------------------------
  // Add: `{ ...noteData, id, timestamp }` put in front of the list.

  /** The note built from a submitted draft, a generated id and the current time. */
  function NewNote(d: Draft, id: string, ts: Timestamp): (n: Note)
    ensures n.id == id && n.timestamp == ts
    ensures DraftOf(n) == d
  {
    Note(id, d.title, d.description, d.rating, ts)
  }

  /** `[newNote, ...notes]`: the new note first, the old notes after it in their order. */
  function Prepend(notes: seq<Note>, d: Draft, id: string, ts: Timestamp): (r: seq<Note>)
    ensures |r| == |notes| + 1
    ensures r[1..] == notes
    ensures r[0].id == id && r[0].timestamp == ts && DraftOf(r[0]) == d
    ensures Ids(r) == [id] + Ids(notes)
  {
    [NewNote(d, id, ts)] + notes
  }

  /** Adding under an id not yet present keeps the ids unique. */
  lemma PrependKeepsUnique(notes: seq<Note>, d: Draft, id: string, ts: Timestamp)
    requires UniqueIds(notes)
    requires id !in Ids(notes)
    ensures UniqueIds(Prepend(notes, d, id, ts))
  {
    var r := Prepend(notes, d, id, ts);
    forall i, j | 0 <= i < j < |r| ensures r[i].id != r[j].id {
      assert r[j] == notes[j - 1];
      if i == 0 {
        assert Ids(notes)[j - 1] == notes[j - 1].id;
      } else {
        assert r[i] == notes[i - 1];
      }
    }
  }

  /** Adding under an id that is already present breaks uniqueness. */
  lemma PrependDuplicateId(notes: seq<Note>, d: Draft, id: string, ts: Timestamp)
    requires id in Ids(notes)
    ensures !UniqueIds(Prepend(notes, d, id, ts))
  {
  }

  // ---------------------------------------------------------------------------
  // Edit: `notes.map(note => note.id === id ? { ...note, ...noteData } : note)`.

  /** `{ ...note, ...noteData }`: the draft fields replaced, everything else kept. */
  function WithDraft(n: Note, d: Draft): (r: Note)
    ensures r.id == n.id && r.timestamp == n.timestamp
    ensures DraftOf(r) == d
  {
    n.(title := d.title, description := d.description, rating := d.rating)
  }

  /** Re-submitting a note's own fields leaves it as it was. */
  lemma WithOwnDraft(n: Note)
    ensures WithDraft(n, DraftOf(n)) == n
  {
  }

  /** Every note whose id is `id` gets the draft fields; every other note is untouched. */
  function EditById(notes: seq<Note>, id: string, d: Draft): (r: seq<Note>)
    ensures |r| == |notes|
    ensures forall i :: 0 <= i < |notes| && notes[i].id != id ==> r[i] == notes[i]
    ensures forall i :: 0 <= i < |notes| && notes[i].id == id ==>
              r[i].id == id && r[i].timestamp == notes[i].timestamp && DraftOf(r[i]) == d
  {
    if notes == [] then []
    else
      var head := if notes[0].id == id then WithDraft(notes[0], d) else notes[0];
      [head] + EditById(notes[1..], id, d)
  }

  /** The edit keeps the id at every position, so it keeps the ids and their uniqueness. */
  lemma EditKeepsIds(notes: seq<Note>, id: string, d: Draft)
    ensures Ids(EditById(notes, id, d)) == Ids(notes)
    ensures UniqueIds(EditById(notes, id, d)) <==> UniqueIds(notes)
  {
  }

  /** Editing an id that no note carries changes nothing. */
  lemma EditAbsentId(notes: seq<Note>, id: string, d: Draft)
    requires id !in Ids(notes)
    ensures EditById(notes, id, d) == notes
  {
    var r := EditById(notes, id, d);
    forall i | 0 <= i < |notes| ensures r[i] == notes[i] {
      assert Ids(notes)[i] == notes[i].id;
    }
  }

  /** Applying the same edit twice is the same as applying it once. */
  lemma EditIdempotent(notes: seq<Note>, id: string, d: Draft)
    ensures EditById(EditById(notes, id, d), id, d) == EditById(notes, id, d)
  {
  }

  // ---------------------------------------------------------------------------
  // Delete: `notes.filter(note => note.id !== id)`.

  /** The notes whose id is not `id`, in their original order. */
  function RemoveById(notes: seq<Note>, id: string): (r: seq<Note>)
    ensures |r| <= |notes|
    ensures forall n :: n in r <==> n in notes && n.id != id
    ensures id !in Ids(r)
    ensures id in Ids(notes) ==> |r| < |notes|
  {
    if notes == [] then []
    else
      var rest := RemoveById(notes[1..], id);
      assert id in Ids(notes) && notes[0].id != id ==> id in Ids(notes[1..]) by {
        if id in Ids(notes) && notes[0].id != id {
          var k :| 0 <= k < |notes| && Ids(notes)[k] == id;
          assert Ids(notes[1..])[k - 1] == id;
        }
      }
      assert id !in Ids(rest) && notes[0].id != id ==> id !in Ids([notes[0]] + rest) by {
        if id !in Ids(rest) && notes[0].id != id {
          assert Ids([notes[0]] + rest) == [notes[0].id] + Ids(rest);
        }
      }
      if notes[0].id == id then rest else [notes[0]] + rest
  }

  /** Deleting an id that no note carries changes nothing. */
  lemma {:induction false} RemoveAbsentId(notes: seq<Note>, id: string)
    requires id !in Ids(notes)
    ensures RemoveById(notes, id) == notes
  {
    if notes != [] {
      assert Ids(notes)[0] == notes[0].id;
      assert Ids(notes[1..]) == Ids(notes)[1..];
      RemoveAbsentId(notes[1..], id);
    }
  }

  /** Deleting distributes over concatenation: the survivors keep their relative order. */
  lemma {:induction false} RemoveAppend(a: seq<Note>, b: seq<Note>, id: string)
    ensures RemoveById(a + b, id) == RemoveById(a, id) + RemoveById(b, id)
  {
    if a == [] {
      assert a + b == b;
    } else {
      assert (a + b)[0] == a[0];
      assert (a + b)[1..] == a[1..] + b;
      RemoveAppend(a[1..], b, id);
    }
  }

  /** With unique ids, deleting the id at position `k` removes exactly that note. */
  lemma {:induction false} RemoveUniqueAt(notes: seq<Note>, k: int)
    requires UniqueIds(notes)
    requires 0 <= k < |notes|
    ensures RemoveById(notes, notes[k].id) == notes[..k] + notes[k + 1..]
  {
    var id := notes[k].id;
    var pre, post := notes[..k], notes[k + 1..];
    assert notes == pre + ([notes[k]] + post);
    RemoveAppend(pre, [notes[k]] + post, id);
    RemoveAppend([notes[k]], post, id);
    assert id !in Ids(pre) by {
      forall i | 0 <= i < |pre| ensures Ids(pre)[i] != id {
        assert pre[i] == notes[i];
      }
    }
    assert id !in Ids(post) by {
      forall i | 0 <= i < |post| ensures Ids(post)[i] != id {
        assert post[i] == notes[k + 1 + i];
      }
    }
    RemoveAbsentId(pre, id);
    RemoveAbsentId(post, id);
    assert RemoveById([notes[k]], id) == [];
  }

  /** Deleting keeps the ids unique. */
  lemma {:induction false} RemoveKeepsUnique(notes: seq<Note>, id: string)
    requires UniqueIds(notes)
    ensures UniqueIds(RemoveById(notes, id))
  {
    if notes != [] {
      var tail := notes[1..];
      assert UniqueIds(tail) by {
        forall i, j | 0 <= i < j < |tail| ensures tail[i].id != tail[j].id {
          assert tail[i] == notes[i + 1] && tail[j] == notes[j + 1];
        }
      }
      RemoveKeepsUnique(tail, id);
      var rest := RemoveById(tail, id);
      if notes[0].id != id {
        var r := [notes[0]] + rest;
        forall j | 0 < j < |r| ensures r[0].id != r[j].id {
          assert r[j] in tail;
          var m :| 0 <= m < |tail| && tail[m] == r[j];
          assert notes[m + 1] == r[j];
        }
        forall i, j | 0 < i < j < |r| ensures r[i].id != r[j].id {
          assert r[i] == rest[i - 1] && r[j] == rest[j - 1];
        }
      }
    }
  }

  /** A pending edit of a note that has since been deleted changes no note. */
  lemma EditAfterRemove(notes: seq<Note>, id: string, d: Draft)
    ensures EditById(RemoveById(notes, id), id, d) == RemoveById(notes, id)
  {
  }

  /** Deleting a note discards whatever an edit of that note wrote. */
  lemma {:induction false} RemoveAfterEdit(notes: seq<Note>, id: string, d: Draft)
    ensures RemoveById(EditById(notes, id, d), id) == RemoveById(notes, id)
  {
    if notes != [] {
      var e := EditById(notes, id, d);
      assert e[1..] == EditById(notes[1..], id, d);
      RemoveAfterEdit(notes[1..], id, d);
    }
  }
}
