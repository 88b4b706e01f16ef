/** The list logic of the WordPress account page: a spreadsheet upload turned into objects
    keyed by the header row, the guards that keep the save, add, edit and delete buttons from
    sending an empty request, the selection and 15 accounts a page. The spreadsheet decoder
    is outside: the upload arrives as rows of cells. */
module WordpressPage {
  import opened Util
  import opened Selection
  import WorklistSave

  /** An uploaded object: the property names and their cells. */
  type UploadObject = map<string, Cell>

  /** The header spellings the upload renames to the names the save route reads. */
  const NaverIdHeader: string := "네이버ID"
  const NaverPasswordHeader: string := "네이버PW"

  /** The property a header cell names, `None` for an empty cell, which `reduce` skips.
      "네이버ID" and "네이버PW" are renamed; a number is a property name by its decimal
      form (and is never one of the two). */
  function HeaderKey(col: Cell): (r: Option<string>)
    ensures col == Str(NaverIdHeader) ==> r == Some(WorklistSave.NaverIdKey)
    ensures col == Str(NaverPasswordHeader) ==> r == Some(WorklistSave.NaverPasswordKey)
    ensures col.Str? && col.s != NaverIdHeader && col.s != NaverPasswordHeader ==> r == Some(col.s)
    ensures r.None? <==> col.Blank?
  {
    match col
    case Blank => None
    case Str(s) =>
      if s == NaverIdHeader then Some(WorklistSave.NaverIdKey)
      else if s == NaverPasswordHeader then Some(WorklistSave.NaverPasswordKey)
      else Some(s)
    case Num(n) => Some(IntToString(n))
  }

  /** `row[index]`: `undefined` past the end of a short row. */
  function CellAt(row: seq<Cell>, index: nat): Cell {
    if index < |row| then row[index] else Blank
  }

  /** The object the `reduce` over the header row builds for one data row: column by column,
      `acc[col] = row[index]`, so a later column with the same name overwrites an earlier one. */
  function RowObject(columns: seq<Cell>, row: seq<Cell>): UploadObject
    decreases |columns|
  {
    if columns == [] then map[]
    else
      var n := |columns| - 1;
      var acc := RowObject(columns[..n], row);
      match HeaderKey(columns[n])
      case None => acc
      case Some(col) => acc[col := CellAt(row, n)]
  }

  /** The `reduce` callback run on every header cell, filling `acc` in place. */
  method BuildObject(columns: seq<Cell>, row: seq<Cell>) returns (acc: UploadObject)
    ensures acc == RowObject(columns, row)
  {
    acc := map[];
    for index := 0 to |columns|
      invariant acc == RowObject(columns[..index], row)
    {
      assert columns[..index + 1][..index] == columns[..index];
      var col := HeaderKey(columns[index]);
      if col.Some? {
        acc := acc[col.value := CellAt(row, index)];
      }
    }
    assert columns[..|columns|] == columns;
  }

  /** An object has a property exactly for each header that names it. */
  lemma {:induction false} RowObjectKeys(columns: seq<Cell>, row: seq<Cell>, key: string)
    ensures key in RowObject(columns, row) <==> exists i :: 0 <= i < |columns| && HeaderKey(columns[i]) == Some(key)
    decreases |columns|
  {
    if columns != [] {
      var n := |columns| - 1;
      var init := columns[..n];
      RowObjectKeys(init, row, key);
      if key in RowObject(columns, row) {
        if HeaderKey(columns[n]) != Some(key) {
          var i :| 0 <= i < n && HeaderKey(init[i]) == Some(key);
          assert HeaderKey(columns[i]) == Some(key);
        }
      } else {
        forall i | 0 <= i < |columns|
          ensures HeaderKey(columns[i]) != Some(key)
        {
          if i < n {
            assert columns[i] == init[i];
          }
        }
      }
    }
  }

  /** The value under a name is the cell of the last column with that name. */
  lemma {:induction false} RowObjectLastWins(columns: seq<Cell>, row: seq<Cell>, i: nat)
    requires i < |columns| && HeaderKey(columns[i]).Some?
    requires forall j :: i < j < |columns| ==> HeaderKey(columns[j]) != HeaderKey(columns[i])
    ensures HeaderKey(columns[i]).value in RowObject(columns, row)
    ensures RowObject(columns, row)[HeaderKey(columns[i]).value] == CellAt(row, i)
    decreases |columns|
  {
    var n := |columns| - 1;
    if i < n {
      assert columns[..n][i] == columns[i];
      RowObjectLastWins(columns[..n], row, i);
    }
  }

  /** `const [columns, ...rows] = jsonData; rows.map(...)`: one object per row after the
      header; an empty sheet gives none. */
  function Uploaded(jsonData: seq<seq<Cell>>): (items: seq<UploadObject>)
    ensures |items| == if jsonData == [] then 0 else |jsonData| - 1
    ensures forall k :: 0 <= k < |items| ==> items[k] == RowObject(jsonData[0], jsonData[k + 1])
    decreases |jsonData|
  {
    if |jsonData| <= 1 then []
    else
      var n := |jsonData| - 1;
      assert jsonData[..n][0] == jsonData[0];
      Uploaded(jsonData[..n]) + [RowObject(jsonData[0], jsonData[n])]
  }

  /** `handleFileUpload` after decoding: the `map` over the data rows, each object built by
      the `reduce`. */
  method ParseUpload(jsonData: seq<seq<Cell>>) returns (parsedItems: seq<UploadObject>)
    ensures parsedItems == Uploaded(jsonData)
  {
    parsedItems := [];
    if jsonData == [] {
      return;
    }
    var columns := jsonData[0];
    for k := 1 to |jsonData|
      invariant parsedItems == Uploaded(jsonData[..k])
    {
      assert jsonData[..k + 1][..k] == jsonData[..k];
      var acc := BuildObject(columns, jsonData[k]);
      parsedItems := parsedItems + [acc];
    }
    assert jsonData[..|jsonData|] == jsonData;
  }

  /** The header row the account sheet is meant to carry. */
  const AccountHeader: seq<Cell> :=
    [Str(WorklistSave.UsernameKey), Str(WorklistSave.PasswordKey), Str(WorklistSave.LinkKey),
     Str(NaverIdHeader), Str(NaverPasswordHeader)]

  /** With that header, the five columns of a row reach the five columns the save route
      stores, in order, through the renamed Naver headers. */
  lemma AccountSheetFeedsWorklist(row: seq<Cell>)
    ensures WorklistSave.RowOf(RowObject(AccountHeader, row)) ==
      WorklistSave.WorkRow(
        WorklistSave.OrEmpty(CellAt(row, 0)), WorklistSave.OrEmpty(CellAt(row, 1)),
        WorklistSave.OrEmpty(CellAt(row, 2)), WorklistSave.OrEmpty(CellAt(row, 3)),
        WorklistSave.OrEmpty(CellAt(row, 4)))
  {
    RowObjectLastWins(AccountHeader, row, 0);
    RowObjectLastWins(AccountHeader, row, 1);
    RowObjectLastWins(AccountHeader, row, 2);
    RowObjectLastWins(AccountHeader, row, 3);
    RowObjectLastWins(AccountHeader, row, 4);
  }

  /** A request one of the buttons sends. */
  datatype Request =
    | SaveItems(items: seq<UploadObject>)
    | AddItem(form: Form)
    | UpdateItem(item: EditItem)

  /** The add form's five fields. */
  datatype Form = Form(username: string, password: string, link: string, naverId: string, naverPassword: string)

  const EmptyForm := Form("", "", "", "", "")

  /** The row being edited; only its `id` is read before sending. */
  datatype EditItem = EditItem(id: Cell, fields: Form)

  /** `handleSaveToDB`: nothing is sent for an empty upload. */
  function SaveRequest(uploadedItems: seq<UploadObject>): Option<Request> {
    if uploadedItems == [] then None else Some(SaveItems(uploadedItems))
  }

  /** `handleSaveNewItem`: a username and a password are required. */
  function AddRequest(newItem: Form): Option<Request> {
    if newItem.username == "" || newItem.password == "" then None else Some(AddItem(newItem))
  }

  /** The form after the add request is answered: reset on success, kept otherwise. */
  function FormAfterAdd(newItem: Form, success: bool): Form {
    if success then EmptyForm else newItem
  }

  /** A form just reset cannot be sent again. */
  lemma ResetFormSendsNothing(newItem: Form)
    ensures AddRequest(FormAfterAdd(newItem, true)).None?
  {
  }

  /** `handleSaveEdit`: nothing is sent unless an item is being edited and its id is truthy. */
  function EditRequest(editingItem: Option<EditItem>): Option<Request> {
    match editingItem
    case None => None
    case Some(item) => if Truthy(item.id) then Some(UpdateItem(item)) else None
  }

  /** Editing a row of the fetched list, whose `id` is the table's auto-increment key (1
      or more), always sends the edited row, with every field as edited; cancelling sends
      nothing. */
  lemma EditFetchedRowSent(id: int, edited: Form)
    requires id >= 1
    ensures EditRequest(Some(EditItem(Num(id), edited))) == Some(UpdateItem(EditItem(Num(id), edited)))
    ensures EditRequest(None).None?
  {
  }

  /** A save the page sends never gets the route's 400: the route answers 200 and stores
      every row when its statement succeeds, 500 otherwise. */
  lemma SaveRequestAccepted(uploadedItems: seq<UploadObject>, items: seq<WorklistSave.WorkItem>,
                            table: map<Cell, WorklistSave.Account>, statementOk: bool)
    requires SaveRequest(uploadedItems).Some?
    requires |items| == |uploadedItems|
    requires forall k :: 0 <= k < |items| ==> items[k] == WorklistSave.Fields(uploadedItems[k])
    ensures var r := WorklistSave.SaveWorklist(WorklistSave.WorkItems(items), table, statementOk);
      && (r.status == 200 <==> statementOk)
      && (r.status != 200 ==> r.status == 500)
  {
    assert items != [];
  }

  const ItemsPerPage: nat := 15

  /** `currentWorklist` and the numbered rows: page `page` shows accounts
      `(page-1)*15 .. page*15`, row `index` numbered `(page-1)*15 + index + 1`, which is that
      account's position in the whole list; the buttons number ceil(n/15) pages, none empty. */
  lemma Pagination(ids: seq<Id>, page: nat, index: nat)
    requires page >= 1
    ensures |Chunks(ids, ItemsPerPage)| == CeilDiv(|ids|, ItemsPerPage)
    ensures |PageSlice(ids, page, ItemsPerPage)| <= ItemsPerPage
    ensures index < |PageSlice(ids, page, ItemsPerPage)| ==>
      1 <= RowNumber(page, ItemsPerPage, index) <= |ids| &&
      ids[RowNumber(page, ItemsPerPage, index) - 1] == PageSlice(ids, page, ItemsPerPage)[index]
    ensures page <= CeilDiv(|ids|, ItemsPerPage) ==>
      PageSlice(ids, page, ItemsPerPage) == Chunks(ids, ItemsPerPage)[page - 1] != []
  {
    ChunksCount(ids, ItemsPerPage);
    PageSliceAt(ids, page, ItemsPerPage);
    if index < |PageSlice(ids, page, ItemsPerPage)| {
      RowNumberNamesItem(ids, page, ItemsPerPage, index);
    }
    if page <= CeilDiv(|ids|, ItemsPerPage) {
      PagesAreChunks(ids, page, ItemsPerPage);
    }
  }
}
