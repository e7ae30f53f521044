/** The list expressions the handlers apply to `notes`: `filter` by id on
    delete, `map` replacing by id on update, `find` by the selected id, and
    the "first remaining note or none" reselection. */
module NoteLists {
  import opened Notes

  /** `n.id === sel`, where a `null` selection matches no note. */
  predicate Matches(n: Note, sel: Option<Id>) {
    sel == Some(n.id)
  }

  /** `notes.filter((n) => n.id !== id)`. */
  function Remove(notes: seq<Note>, id: Id): (r: seq<Note>)
    ensures forall n :: n in r <==> n in notes && n.id != id
    ensures |r| <= |notes|
    ensures |r| == |notes| <==> forall i :: 0 <= i < |notes| ==> notes[i].id != id
  {
    if notes == [] then []
    else if notes[0].id != id then [notes[0]] + Remove(notes[1..], id)
    else Remove(notes[1..], id)
  }

  /** Filtering distributes over concatenation: the notes that survive keep
      their relative order. */
  lemma {:induction false} RemoveAppend(a: seq<Note>, b: seq<Note>, id: Id)
    ensures Remove(a + b, id) == Remove(a, id) + Remove(b, id)
  {
    if a != [] {
      assert (a + b)[1..] == a[1..] + b;
      RemoveAppend(a[1..], b, id);
    } else {
      assert a + b == b;
    }
  }

  /** A list holding no note with the id is left as it is. */
  lemma {:induction false} RemoveAbsent(notes: seq<Note>, id: Id)
    requires forall i :: 0 <= i < |notes| ==> notes[i].id != id
    ensures Remove(notes, id) == notes
  {
    if notes != [] {
      RemoveAbsent(notes[1..], id);
    }
  }

  /** `notes.map((n) => (n.id === note.id ? note : n))`. */
  function Replace(notes: seq<Note>, note: Note): (r: seq<Note>)
    ensures |r| == |notes|
    ensures forall i :: 0 <= i < |notes| ==>
      r[i] == if notes[i].id == note.id then note else notes[i]
  {
    if notes == [] then []
    else [if notes[0].id == note.id then note else notes[0]] + Replace(notes[1..], note)
  }

  /** `notes.find((n) => n.id === sel)`: the first note the selection
      matches, or nothing. */
  function Find(notes: seq<Note>, sel: Option<Id>): (r: Option<Note>)
    ensures r.None? <==> forall i :: 0 <= i < |notes| ==> !Matches(notes[i], sel)
    ensures r.Some? ==> exists i :: IsFirstMatch(notes, sel, i) && notes[i] == r.value
  {
    if notes == [] then None
    else if Matches(notes[0], sel) then
      assert IsFirstMatch(notes, sel, 0);
      Some(notes[0])
    else
      var r := Find(notes[1..], sel);
      assert r.Some? ==> exists i :: IsFirstMatch(notes, sel, i) && notes[i] == r.value by {
        if r.Some? {
          var k :| IsFirstMatch(notes[1..], sel, k) && notes[1..][k] == r.value;
          assert IsFirstMatch(notes, sel, k + 1);
        }
      }
      r
  }

  /** Index `i` holds the first note the selection matches. */
  ghost predicate IsFirstMatch(notes: seq<Note>, sel: Option<Id>, i: int) {
    0 <= i < |notes| && Matches(notes[i], sel) &&
    forall j :: 0 <= j < i ==> !Matches(notes[j], sel)
  }

  /** After an update, looking up the returned note's id finds exactly the
      returned note, provided some entry carried that id. */
  lemma {:induction false} FindAfterReplace(notes: seq<Note>, note: Note)
    requires exists i :: 0 <= i < |notes| && notes[i].id == note.id
    ensures Find(Replace(notes, note), Some(note.id)) == Some(note)
  {
    if notes[0].id != note.id {
      var i :| 0 <= i < |notes| && notes[i].id == note.id;
      assert notes[1..][i - 1].id == note.id;
      FindAfterReplace(notes[1..], note);
      assert Replace(notes, note)[1..] == Replace(notes[1..], note);
    }
  }

  /** `remain.length > 0 ? remain[0].id : null`. */
  function FirstId(notes: seq<Note>): Option<Id> {
    if |notes| > 0 then Some(notes[0].id) else None
  }

  /** The selection after deleting `id`: the first note of the list with
      every `id` entry filtered out, or none. */
  function NextSelection(notes: seq<Note>, id: Id): Option<Id> {
    FirstId(Remove(notes, id))
  }

  /** Index `i` holds the first note, in list order, whose id is not `id`. */
  ghost predicate IsFirstSurvivor(notes: seq<Note>, id: Id, i: int) {
    0 <= i < |notes| && notes[i].id != id &&
    forall j :: 0 <= j < i ==> notes[j].id == id
  }

  /** The next selection is the id of the first note, in list order, that
      survives the deletion (so never the deleted id, and never a note that
      merely followed the deleted one); it is none exactly when no note
      survives. */
  lemma {:induction false} NextSelectionIsFirstSurvivor(notes: seq<Note>, id: Id)
    ensures NextSelection(notes, id).None? <==> forall i :: 0 <= i < |notes| ==> notes[i].id == id
    ensures NextSelection(notes, id).Some? ==>
      exists i :: IsFirstSurvivor(notes, id, i) && notes[i].id == NextSelection(notes, id).value
  {
    if notes == [] {
    } else if notes[0].id != id {
      assert Remove(notes, id) == [notes[0]] + Remove(notes[1..], id);
      assert IsFirstSurvivor(notes, id, 0);
    } else {
      assert Remove(notes, id) == Remove(notes[1..], id);
      NextSelectionIsFirstSurvivor(notes[1..], id);
      if NextSelection(notes, id).Some? {
        var k :| IsFirstSurvivor(notes[1..], id, k) && notes[1..][k].id == NextSelection(notes, id).value;
        assert IsFirstSurvivor(notes, id, k + 1) by {
          forall j | 0 <= j < k + 1 ensures notes[j].id == id {
            if j > 0 { assert notes[j] == notes[1..][j - 1]; }
          }
        }
      } else {
        forall i | 0 <= i < |notes| ensures notes[i].id == id {
          if i > 0 { assert notes[i] == notes[1..][i - 1]; }
        }
      }
    }
  }
}
