/** The list logic of the prompt page: a spreadsheet upload read as one prompt per row, the
    selection of prompt ids with a header box over all prompts, the delete guard and 10
    prompts a page. The spreadsheet decoder is outside: the upload arrives as rows of cells. */
module PromptStatusPage {
  import opened Util
  import opened Selection
  import PromptSave

  /** `row[0]?.trim()` throws when the first cell is a number, which has no `trim`. */
  predicate ThrowsOn(row: seq<Cell>) {
    row != [] && row[0].Num?
  }

  /** What the `.filter` keeps of a row: the trimmed first cell, when it is text and not
      empty once trimmed (a missing first cell is `undefined` and dropped). */
  function Kept(row: seq<Cell>): Option<string> {
    if row != [] && row[0].Str? && JsTrim(row[0].s) != "" then Some(JsTrim(row[0].s)) else None
  }

  /** The `map` then `filter` over the data rows: `None` when a row throws, otherwise the
      kept prompts of the rows, in order. */
  function ParseItems(items: seq<seq<Cell>>): (r: Option<seq<string>>)
    decreases |items|
  {
    if items == [] then Some([])
    else
      var init := items[..|items| - 1];
      var row := items[|items| - 1];
      match ParseItems(init)
      case None => None
      case Some(ps) =>
        if ThrowsOn(row) then None
        else Some(ps + (match Kept(row) case Some(t) => [t] case None => []))
  }

  /** When nothing throws, the parse is the kept prompts of the rows, in row order. */
  lemma {:induction false} ParseItemsInOrder(items: seq<seq<Cell>>)
    requires ParseItems(items).Some?
    ensures ParseItems(items).value == FilterMap(items, Kept)
    decreases |items|
  {
    if items != [] {
      ParseItemsInOrder(items[..|items| - 1]);
    }
  }

  /** Some row's first cell is a number. */
  predicate SomeRowThrows(items: seq<seq<Cell>>) {
    exists k :: 0 <= k < |items| && ThrowsOn(items[k])
  }

  /** The parse fails exactly when some data row's first cell is a number. */
  lemma {:induction false} ParseItemsThrows(items: seq<seq<Cell>>)
    ensures ParseItems(items).None? <==> SomeRowThrows(items)
    decreases |items|
  {
    if items != [] {
      var init := items[..|items| - 1];
      var last := items[|items| - 1];
      ParseItemsThrows(init);
      if SomeRowThrows(init) {
        var k :| 0 <= k < |init| && ThrowsOn(init[k]);
        assert items[k] == init[k];
      } else if !ThrowsOn(last) {
        forall k | 0 <= k < |items|
          ensures !ThrowsOn(items[k])
        {
          if k < |init| {
            assert items[k] == init[k];
          }
        }
      }
    }
  }

  /** `handleFileUpload` after decoding: the first row is the header and is dropped. */
  function ParseUpload(rows: seq<seq<Cell>>): (r: Option<seq<string>>)
    ensures rows == [] ==> r == Some([])
    ensures rows != [] ==> r == ParseItems(rows[1..])
  {
    if rows == [] then Some([]) else ParseItems(rows[1..])
  }

  /** An upload that does not throw gives at most one prompt per data row, each non-empty
      and already trimmed. */
  lemma ParseUploadTrimmed(rows: seq<seq<Cell>>)
    requires rows != [] && ParseUpload(rows).Some?
    ensures |ParseUpload(rows).value| <= |rows| - 1
    ensures forall p :: p in ParseUpload(rows).value ==> p != "" && JsTrim(p) == p
  {
    ParseItemsFrom(rows[1..]);
  }

  /** Every data row whose first cell is text with something besides whitespace gives its
      trimmed text; the header row gives nothing. */
  lemma ParseUploadKeeps(rows: seq<seq<Cell>>, k: nat)
    requires ParseUpload(rows).Some? && 1 <= k < |rows| && Kept(rows[k]).Some?
    ensures Kept(rows[k]).value in ParseUpload(rows).value
  {
    var items := rows[1..];
    assert items[k - 1] == rows[k];
    ParseItemsKeeps(items, k - 1);
  }

  /** Each parsed prompt is the trimmed, non-empty first cell of some row. */
  lemma {:induction false} ParseItemsFrom(items: seq<seq<Cell>>)
    requires ParseItems(items).Some?
    ensures |ParseItems(items).value| <= |items|
    ensures forall p :: p in ParseItems(items).value ==> p != "" && JsTrim(p) == p
    decreases |items|
  {
    if items != [] {
      var init := items[..|items| - 1];
      var row := items[|items| - 1];
      ParseItemsFrom(init);
      if Kept(row).Some? {
        TrimIdempotent(row[0].s, IsJsSpace);
      }
    }
  }

  /** A row with a kept prompt contributes it. */
  lemma {:induction false} ParseItemsKeeps(items: seq<seq<Cell>>, k: nat)
    requires ParseItems(items).Some? && k < |items| && Kept(items[k]).Some?
    ensures Kept(items[k]).value in ParseItems(items).value
    decreases |items|
  {
    var init := items[..|items| - 1];
    if k < |init| {
      assert init[k] == items[k];
      ParseItemsKeeps(init, k);
    }
  }

  /** `{ 프롬프트: p }` for each parsed prompt, as the save route receives them. */
  function AsUploads(ps: seq<string>): (items: seq<PromptSave.PromptItem>)
    ensures |items| == |ps|
    ensures forall k :: 0 <= k < |ps| ==> items[k] == PromptSave.Upload(Some(ps[k]))
    decreases |ps|
  {
    if ps == [] then [] else AsUploads(ps[..|ps| - 1]) + [PromptSave.Upload(Some(ps[|ps| - 1]))]
  }

  /** `handleSaveToDB` has no guard: an upload with no prompt is sent anyway and the route
      answers 400. A non-empty one is stored when the database answers: each prompt not yet
      stored is inserted, and saving the same upload again inserts nothing. */
  lemma SaveUpload(ps: seq<string>, stored: set<string>)
    ensures ps == [] ==> PromptSave.SavePrompts(PromptSave.PromptList(AsUploads(ps)), stored, true, true).status == 400
    ensures ps != [] ==>
      var first := PromptSave.SavePrompts(PromptSave.PromptList(AsUploads(ps)), stored, true, true);
      var second := PromptSave.SavePrompts(PromptSave.PromptList(AsUploads(ps)), stored + PromptSave.Strings(first.inserted), true, true);
      && first.status == 200
      && second.status == 200 && !second.success && second.inserted == []
  {
    if ps != [] {
      PromptSave.SaveTwiceInsertsNothing(AsUploads(ps), stored);
    }
  }

  /** The header box's `checked`: as many selected ids as prompts, and at least one prompt. */
  predicate HeaderChecked(selected: set<Id>, ids: seq<Id>) {
    |selected| == |ids| && |ids| > 0
  }

  /** `handleSelectAll` is `SelectAll` over every prompt's id, on all pages. Checking it on a
      non-empty list of distinct ids shows it checked; unchecking shows it unchecked, as does
      any click on a row box right after checking it. */
  lemma SelectAllShows(ids: seq<Id>, id: Id)
    requires forall i, j :: 0 <= i < j < |ids| ==> ids[i] != ids[j]
    ensures HeaderChecked(SelectAll(true, ids), ids) <==> ids != []
    ensures !HeaderChecked(SelectAll(false, ids), ids)
    ensures !HeaderChecked(Toggled(SelectAll(true, ids), id), ids)
  {
    DistinctIdsCount(ids);
    ToggledFlipsOne(SelectAll(true, ids), id);
  }

  const ItemsPerPage: nat := 10

  /** `currentItems`: the prompts of page `page`; `Util.PageSliceAt` says which they are. */
  function CurrentItems(ids: seq<Id>, page: nat): seq<Id>
    requires page >= 1
  {
    PageSlice(ids, page, ItemsPerPage)
  }
}
