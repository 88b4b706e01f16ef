/** The checkbox selection the admin pages keep: a set<Id> of row ids. Each page's
    `handleCheckboxChange` copies the set<Id>, removes the id when present and adds it otherwise;
    the pages differ in what their header checkbox selects and shows. */
module Selection {
  import opened Util

  /** A row id, as the pages' lists carry it. */
  type Id = int

  /** The selection after one click on the box of `id`. */
  function Toggled(selected: set<Id>, id: Id): set<Id> {
    if id in selected then selected - {id} else selected + {id}
  }

  /** `handleCheckboxChange`: the copy of the set<Id>, updated in place. */
  method Toggle(selected: set<Id>, id: Id) returns (updated: set<Id>)
    ensures updated == Toggled(selected, id)
    ensures id in updated <==> id !in selected
    ensures forall x :: x != id ==> (x in updated <==> x in selected)
  {
    updated := selected;
    if id in updated {
      updated := updated - {id};
    } else {
      updated := updated + {id};
    }
  }

  /** A click flips the membership of its own id and of no other. */
  lemma ToggledFlipsOne(selected: set<Id>, id: Id)
    ensures id in Toggled(selected, id) <==> id !in selected
    ensures forall x :: x != id ==> (x in Toggled(selected, id) <==> x in selected)
    ensures |Toggled(selected, id)| == if id in selected then |selected| - 1 else |selected| + 1
  {
  }

  /** Two clicks on the same box give the selection back. */
  lemma ToggledTwice(selected: set<Id>, id: Id)
    ensures Toggled(Toggled(selected, id), id) == selected
  {
  }

  /** Clicks on two different boxes commute. */
  lemma ToggledCommutes(selected: set<Id>, a: Id, b: Id)
    ensures Toggled(Toggled(selected, a), b) == Toggled(Toggled(selected, b), a)
  {
  }

  /** The ids of a list, as a set: `new Set(items.map(item => item.id))`. */
  function IdSet(ids: seq<Id>): set<Id> {
    set x | x in ids
  }

  /** The header box of pages that select every listed id: checked selects all of `ids`,
      unchecked clears the selection. */
  function SelectAll(checked: bool, ids: seq<Id>): set<Id> {
    if checked then IdSet(ids) else {}
  }

  /** Distinct ids fill a set<Id> of the list's size. */
  lemma {:induction false} DistinctIdsCount(ids: seq<Id>)
    requires forall i, j :: 0 <= i < j < |ids| ==> ids[i] != ids[j]
    ensures |IdSet(ids)| == |ids|
    decreases |ids|
  {
    if ids != [] {
      var init := ids[..|ids| - 1];
      var last := ids[|ids| - 1];
      DistinctIdsCount(init);
      assert IdSet(ids) == IdSet(init) + {last};
      assert last !in IdSet(init);
    }
  }

  /** The other half of the completed page's header box: unchecking removes the ids of the
      current page one by one from a copy of the selection. */
  method Unselect(selected: set<Id>, pageIds: seq<Id>) returns (newSet: set<Id>)
    ensures newSet == selected - IdSet(pageIds)
  {
    newSet := selected;
    var i := 0;
    while i < |pageIds|
      invariant 0 <= i <= |pageIds|
      invariant newSet == selected - IdSet(pageIds[..i])
    {
      assert IdSet(pageIds[..i + 1]) == IdSet(pageIds[..i]) + {pageIds[i]} by {
        assert pageIds[..i + 1] == pageIds[..i] + [pageIds[i]];
      }
      newSet := newSet - {pageIds[i]};
      i := i + 1;
    }
    assert pageIds[..i] == pageIds;
  }

  /** The delete buttons' guard: with nothing selected no request is sent (`None`);
      otherwise the request names every selected id. */
  function DeleteIds(selected: set<Id>): Option<set<Id>> {
    if |selected| == 0 then None else Some(selected)
  }

  /** Deleting after the header box: unchecked, nothing is sent; checked over a non-empty
      list, the request names exactly the listed ids. */
  lemma DeleteAfterSelectAll(ids: seq<Id>)
    ensures DeleteIds(SelectAll(false, ids)).None?
    ensures ids != [] ==> DeleteIds(SelectAll(true, ids)) == Some(IdSet(ids))
  {
    if ids != [] {
      assert ids[0] in IdSet(ids);
    }
  }

  /** Deleting after clicks on boxes: a request is sent exactly when some box is ticked,
      and it names the ticked ids; one click from an empty selection sends that one id. */
  lemma DeleteAfterToggle(selected: set<Id>, id: Id)
    ensures DeleteIds(Toggled(selected, id)).Some? <==> Toggled(selected, id) != {}
    ensures DeleteIds(Toggled({}, id)) == Some({id})
  {
  }
}
