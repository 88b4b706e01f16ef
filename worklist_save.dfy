/** `POST /api/worklist/save`: each uploaded item becomes a five-column row, and all rows are
    written in one `INSERT ... ON DUPLICATE KEY UPDATE` statement. The table's schema is not
    in the repository: the model takes the `username` column as its unique key, which the
    route implies by leaving `username` out of its `UPDATE` list, and is a map from it to
    the other four columns. Whether the statement succeeds is an input. */
module WorklistSave {
  import opened Util

  /** The keys the route reads: 아이디 (id), 비밀번호 (password), 워프 (the WordPress link),
      네이버아이디 (Naver id) and 네이버비밀번호 (Naver password). */
  const UsernameKey: string := "아이디"
  const PasswordKey: string := "비밀번호"
  const LinkKey: string := "워프"
  const NaverIdKey: string := "네이버아이디"
  const NaverPasswordKey: string := "네이버비밀번호"

  /** An element of `items`: `null`, or an object with its properties. */
  datatype WorkItem = NullWork | Fields(fields: map<string, Cell>)

  /** The `items` field of the request body. */
  datatype ItemsArg = NotAnArray | WorkItems(items: seq<WorkItem>)

  /** `item[key]`: `undefined` when the object has no such property. */
  function Field(m: map<string, Cell>, key: string): Cell {
    if key in m then m[key] else Blank
  }

  /** `value || ""`. */
  function OrEmpty(c: Cell): Cell {
    if Truthy(c) then c else Str("")
  }

  /** One `VALUES` tuple: `(username, password, link, naver_id, naver_password)`. */
  datatype WorkRow = WorkRow(username: Cell, password: Cell, link: Cell, naverId: Cell, naverPassword: Cell)

  /** The tuple of one item. */
  function RowOf(m: map<string, Cell>): WorkRow {
    WorkRow(
      OrEmpty(Field(m, UsernameKey)),
      OrEmpty(Field(m, PasswordKey)),
      OrEmpty(Field(m, LinkKey)),
      OrEmpty(Field(m, NaverIdKey)),
      OrEmpty(Field(m, NaverPasswordKey)))
  }

  /** A cell the route may store: a truthy value or the empty string, never `NULL`, `0` or
      `undefined`. */
  predicate Storable(c: Cell) {
    Truthy(c) || c == Str("")
  }

  /** No column of a tuple is ever `NULL`. */
  lemma RowStorable(m: map<string, Cell>)
    ensures var r := RowOf(m);
      Storable(r.username) && Storable(r.password) && Storable(r.link) && Storable(r.naverId) && Storable(r.naverPassword)
  {
  }

  predicate AllPresent(items: seq<WorkItem>) {
    forall k :: 0 <= k < |items| ==> items[k].Fields?
  }

  /** `items.map(...)`: one tuple per item, in order. */
  function RowsOf(items: seq<WorkItem>): (r: seq<WorkRow>)
    requires AllPresent(items)
    ensures |r| == |items|
    ensures forall k :: 0 <= k < |items| ==> r[k] == RowOf(items[k].fields)
    decreases |items|
  {
    if items == [] then [] else RowsOf(items[..|items| - 1]) + [RowOf(items[|items| - 1].fields)]
  }

  /** The columns a stored row keeps besides its key. */
  datatype Account = Account(password: Cell, link: Cell, naverId: Cell, naverPassword: Cell)

  function AccountOf(r: WorkRow): Account {
    Account(r.password, r.link, r.naverId, r.naverPassword)
  }

  /** The statement, tuple by tuple in order: a new username is inserted; an existing one has
      its password, link, naver_id and naver_password overwritten, which leaves the same four
      values as an insert would. */
  function Upsert(table: map<Cell, Account>, rows: seq<WorkRow>): map<Cell, Account>
    decreases |rows|
  {
    if rows == [] then table
    else
      var r := rows[|rows| - 1];
      Upsert(table, rows[..|rows| - 1])[r.username := AccountOf(r)]
  }

  /** The usernames of the tuples. */
  function Usernames(rows: seq<WorkRow>): (s: set<Cell>)
    ensures forall k :: 0 <= k < |rows| ==> rows[k].username in s
    ensures forall u :: u in s ==> exists k :: 0 <= k < |rows| && rows[k].username == u
    decreases |rows|
  {
    if rows == [] then {}
    else
      var s := Usernames(rows[..|rows| - 1]);
      assert forall u :: u in s ==> exists k :: 0 <= k < |rows| - 1 && rows[k].username == u;
      s + {rows[|rows| - 1].username}
  }

  /** After the statement the table holds the old usernames and the uploaded ones, and no
      other; a username not uploaded keeps its row. */
  lemma {:induction false} UpsertKeys(table: map<Cell, Account>, rows: seq<WorkRow>)
    ensures Upsert(table, rows).Keys == table.Keys + Usernames(rows)
    ensures forall u :: u in table && u !in Usernames(rows) ==> Upsert(table, rows)[u] == table[u]
    decreases |rows|
  {
    if rows != [] {
      UpsertKeys(table, rows[..|rows| - 1]);
    }
  }

  /** The row of an uploaded username holds the values of the last tuple with that
      username: a later duplicate in the same upload wins. */
  lemma {:induction false} UpsertLastWins(table: map<Cell, Account>, rows: seq<WorkRow>, k: nat)
    requires k < |rows|
    requires forall j :: k < j < |rows| ==> rows[j].username != rows[k].username
    ensures rows[k].username in Upsert(table, rows)
    ensures Upsert(table, rows)[rows[k].username] == AccountOf(rows[k])
    decreases |rows|
  {
    if k < |rows| - 1 {
      UpsertLastWins(table, rows[..|rows| - 1], k);
    }
  }

  /** Sending the same rows twice leaves the table as sending them once. */
  lemma {:induction false} UpsertIdempotent(table: map<Cell, Account>, rows: seq<WorkRow>)
    ensures Upsert(Upsert(table, rows), rows) == Upsert(table, rows)
  {
    var once := Upsert(table, rows);
    var twice := Upsert(once, rows);
    UpsertKeys(table, rows);
    UpsertKeys(once, rows);
    forall u | u in twice
      ensures u in once && twice[u] == once[u]
    {
      if u in Usernames(rows) {
        var k := LastWith(rows, u);
        UpsertLastWins(table, rows, k);
        UpsertLastWins(once, rows, k);
      }
    }
  }

  /** The position of the last tuple with username `u`. */
  lemma LastWith(rows: seq<WorkRow>, u: Cell) returns (k: nat)
    requires u in Usernames(rows)
    ensures k < |rows| && rows[k].username == u
    ensures forall j :: k < j < |rows| ==> rows[j].username != u
  {
    var i :| 0 <= i < |rows| && rows[i].username == u;
    k := i;
    while k + 1 < |rows| && exists j :: k < j < |rows| && rows[j].username == u
      invariant k < |rows| && rows[k].username == u
      decreases |rows| - k
    {
      var j :| k < j < |rows| && rows[j].username == u;
      k := j;
    }
  }

  /** The response status and the table afterwards. */
  datatype SaveResult = SaveResult(status: nat, table: map<Cell, Account>)

  /** The route: 400 for a missing, non-array or empty `items`; 500, with the table
      unchanged, when an item is `null` (reading its property throws) or the statement
      fails; otherwise 200 with every tuple upserted. */
  function SaveWorklist(arg: ItemsArg, table: map<Cell, Account>, statementOk: bool): (r: SaveResult)
    ensures r.status == 400 <==> arg.NotAnArray? || arg == WorkItems([])
    ensures r.status == 500 <==> (arg.WorkItems? && arg.items != [] && (!AllPresent(arg.items) || !statementOk))
    ensures r.status != 200 ==> r.table == table
    ensures r.status == 200 ==> arg.WorkItems? && AllPresent(arg.items) && r.table == Upsert(table, RowsOf(arg.items))
  {
    match arg
    case NotAnArray => SaveResult(400, table)
    case WorkItems(items) =>
      if items == [] then SaveResult(400, table)
      else if !AllPresent(items) || !statementOk then SaveResult(500, table)
      else SaveResult(200, Upsert(table, RowsOf(items)))
  }
}
