/** The list logic of the keyword page: a spreadsheet upload read as every non-empty cell,
    the save and delete guards, the selection with a header box over all keywords and 100
    keywords a page. The spreadsheet decoder is outside: the upload arrives as rows of cells. */
module KeywordPage {
  import opened Util
  import opened Selection
  import KeywordsSave

  /** The `.filter` test: a cell is kept when it is truthy. */
  function KeepTruthy(c: Cell): Option<Cell> {
    if Truthy(c) then Some(c) else None
  }

  /** `jsonData.flat().filter(item => item)`, row by row: the header row's cells count as
      keywords too. */
  function ParseKeywords(rows: seq<seq<Cell>>): (cells: seq<Cell>)
    ensures cells == FilterMap(Flatten(rows), KeepTruthy)
    decreases |rows|
  {
    if rows == [] then []
    else
      FilterMapAppend(rows[0], Flatten(rows[1..]), KeepTruthy);
      FilterMap(rows[0], KeepTruthy) + ParseKeywords(rows[1..])
  }

  /** Every parsed keyword is a truthy cell of the sheet, and every truthy cell of every row
      is parsed, header row included. */
  lemma ParseKeywordsSpec(rows: seq<seq<Cell>>, i: nat, j: nat)
    ensures forall c :: c in ParseKeywords(rows) ==> Truthy(c)
    ensures |ParseKeywords(rows)| <= |Flatten(rows)|
    ensures i < |rows| && j < |rows[i]| && Truthy(rows[i][j]) ==> rows[i][j] in ParseKeywords(rows)
  {
    FilterMapFrom(Flatten(rows), KeepTruthy);
    if i < |rows| && j < |rows[i]| && Truthy(rows[i][j]) {
      var k := FlattenIndex(rows, i, j);
      FilterMapKeeps(Flatten(rows), KeepTruthy, k);
    }
  }

  /** Where cell `j` of row `i` sits in the flattened sheet. */
  lemma {:induction false} FlattenIndex(rows: seq<seq<Cell>>, i: nat, j: nat) returns (k: nat)
    requires i < |rows| && j < |rows[i]|
    ensures k < |Flatten(rows)| && Flatten(rows)[k] == rows[i][j]
    decreases |rows|
  {
    if i == 0 {
      k := j;
    } else {
      var k' := FlattenIndex(rows[1..], i - 1, j);
      k := |rows[0]| + k';
    }
  }

  /** `handleSaveToDB`: nothing is sent for an empty upload. */
  function SaveRequest(uploadedKeywords: seq<Cell>): Option<seq<Cell>> {
    if uploadedKeywords == [] then None else Some(uploadedKeywords)
  }

  /** What the save route reads from an element the page sends: the page sends the bare
      cells, and `item.keyword` and `item.first_keyword` of a string or a number are
      `undefined`. */
  function SentItems(cells: seq<Cell>): (items: seq<KeywordsSave.KeywordItem>)
    ensures |items| == |cells|
    ensures forall k :: 0 <= k < |cells| ==> items[k] == KeywordsSave.Item(None, None)
    decreases |cells|
  {
    if cells == [] then [] else SentItems(cells[..|cells| - 1]) + [KeywordsSave.Item(None, None)]
  }

  /** `INSERT IGNORE` of rows none of which has a unique key skips none of them. */
  lemma {:induction false} InsertIgnoreKeyless(t: seq<KeywordsSave.KeywordRow>, values: seq<KeywordsSave.KeywordRow>,
                                               key: KeywordsSave.KeywordRow -> Option<string>)
    requires forall k :: 0 <= k < |values| ==> key(values[k]).None?
    ensures KeywordsSave.InsertIgnore(t, values, key) == t + values
    decreases |values|
  {
    if values != [] {
      InsertIgnoreKeyless(t, values[..|values| - 1], key);
      assert t + values[..|values| - 1] + [values[|values| - 1]] == t + values;
    }
  }

  /** As written, a request the page sends is accepted when the database answers ... */
  lemma UploadAccepted(cells: seq<Cell>)
    requires SaveRequest(cells).Some?
    ensures KeywordsSave.AllPresent(SentItems(cells))
    ensures KeywordsSave.SaveStatus(KeywordsSave.KeywordList(SentItems(cells)), None) == 200
  {
    KeywordsSave.SaveAllAtOnce([], SentItems(cells), None, KeywordKey);
  }

  /** ... yet no keyword text reaches the table: every uploaded cell becomes a row whose
      two columns are `NULL`, and with a unique key that ignores `NULL`s each of them is
      added. */
  lemma UploadStoresNoKeyword(t: seq<KeywordsSave.KeywordRow>, cells: seq<Cell>, key: KeywordsSave.KeywordRow -> Option<string>)
    requires key((None, None)).None?
    ensures KeywordsSave.AllPresent(SentItems(cells))
    ensures forall k :: 0 <= k < |cells| ==> KeywordsSave.Rows(SentItems(cells))[k] == (None, None)
    ensures KeywordsSave.InsertIgnore(t, KeywordsSave.Rows(SentItems(cells)), key) ==
      t + KeywordsSave.Rows(SentItems(cells))
  {
    InsertIgnoreKeyless(t, KeywordsSave.Rows(SentItems(cells)), key);
  }

  /** The text of a truthy cell: a string, or the decimal form of a number. */
  function CellText(c: Cell): (s: string)
    requires Truthy(c)
    ensures s != []
  {
    match c
    case Str(s) => s
    case Num(n) => IntToString(n)
  }

  /** The evidently intended request: each keyword wrapped as `{ keyword: cell }`. */
  function IntendedItems(cells: seq<Cell>): (items: seq<KeywordsSave.KeywordItem>)
    requires forall k :: 0 <= k < |cells| ==> Truthy(cells[k])
    ensures |items| == |cells|
    ensures forall k :: 0 <= k < |cells| ==> items[k] == KeywordsSave.Item(Some(CellText(cells[k])), None)
    decreases |cells|
  {
    if cells == [] then []
    else IntendedItems(cells[..|cells| - 1]) + [KeywordsSave.Item(Some(CellText(cells[|cells| - 1])), None)]
  }

  /** The keyword column as the unique key. */
  function KeywordKey(r: KeywordsSave.KeywordRow): Option<string> {
    r.0
  }

  /** With the intended request, every parsed keyword's text is in the keyword column of the
      table afterwards: stored by this upload, or already there. */
  lemma IntendedStoresKeywords(t: seq<KeywordsSave.KeywordRow>, rows: seq<seq<Cell>>, k: nat)
    requires k < |ParseKeywords(rows)|
    ensures forall c :: c in ParseKeywords(rows) ==> Truthy(c)
    ensures var cells := ParseKeywords(rows);
      var after := KeywordsSave.InsertIgnore(t, KeywordsSave.Rows(IntendedItems(cells)), KeywordKey);
      exists r :: r in after && r.0 == Some(CellText(cells[k]))
  {
    ParseKeywordsSpec(rows, 0, 0);
    var cells := ParseKeywords(rows);
    var values := KeywordsSave.Rows(IntendedItems(cells));
    var after := KeywordsSave.InsertIgnore(t, values, KeywordKey);
    KeywordsSave.InsertIgnoreStoresOrSkips(t, values, KeywordKey);
    var v := values[k];
    assert v.0 == Some(CellText(cells[k]));
    if v in after {
      assert v.0 == Some(CellText(cells[k]));
    } else {
      assert KeywordsSave.Taken(after, v, KeywordKey);
      var r :| r in after && KeywordKey(r) == KeywordKey(v);
      assert r.0 == Some(CellText(cells[k]));
    }
  }

  /** The header box's `checked`: as many selected ids as keywords, which holds for an empty
      list with nothing selected. */
  predicate HeaderChecked(selected: set<Id>, ids: seq<Id>) {
    |selected| == |ids|
  }

  /** `handleSelectAll` is `SelectAll` over every keyword's id. With distinct ids, checking
      it shows it checked; unchecking shows it unchecked unless the list is empty, where the
      box shows checked from the start. */
  lemma SelectAllShows(ids: seq<Id>)
    requires forall i, j :: 0 <= i < j < |ids| ==> ids[i] != ids[j]
    ensures HeaderChecked(SelectAll(true, ids), ids)
    ensures HeaderChecked(SelectAll(false, ids), ids) <==> ids == []
  {
    DistinctIdsCount(ids);
  }

  const ItemsPerPage: nat := 100

  /** `currentKeywords`: the keywords of page `page`; `Util.PageSliceAt` says which they
      are, and `Util.RowNumberNamesItem` that the `#` column numbers each by its place in
      the whole list. */
  function CurrentKeywords(ids: seq<Id>, page: nat): seq<Id>
    requires page >= 1
  {
    PageSlice(ids, page, ItemsPerPage)
  }
}
