/** The daily progress table `daily_work_records`: a post count per (username, work date),
    changed by `POST /api/daily-records/update` (a batch of increments inside one
    transaction) and `POST /api/daily-records/init` (a zero row for every account that has
    none today, without a transaction). Dates are inputs: the KST date read once per
    record in `update`, once per call in `init`. */
module DailyRecords {
  import opened Util

  /** A row's key: the username and the work date (`YYYY-MM-DD`). */
  type RowKey = (string, string)

  /** The count stored under `k`, 0 when there is no row. */
  function CountOf(rows: map<RowKey, int>, k: RowKey): int {
    if k in rows then rows[k] else 0
  }

  // ---------------------------------------------------------------------------
  // update
  // ---------------------------------------------------------------------------

  /** One element of `records`: `username` (missing or a string) and `postCount` (present
      when its type is `number`). */
  datatype Record = Record(username: Option<string>, postCount: Option<int>)

  /** The `records` field: anything that is not an array, or an array. */
  datatype RecordsArg = NotAnArray | Records(items: seq<Record>)

  /** A record passes the check `!username || typeof postCount !== "number"`. */
  predicate ValidRecord(r: Record) {
    TruthyText(r.username) && r.postCount.Some?
  }

  /** One record applied: the row of (username, day) gets `postCount` added, or is
      created with it. */
  function ApplyRecord(rows: map<RowKey, int>, r: Record, day: string): map<RowKey, int>
    requires ValidRecord(r)
  {
    var k := (r.username.value, day);
    if k in rows then rows[k := rows[k] + r.postCount.value] else rows[k := r.postCount.value]
  }

  /** The records applied in order. The route reads the KST date afresh for every record,
      so record `j` goes under `dateOf(j)`: a batch that runs across midnight splits over
      two dates. */
  function ApplyAll(rows: map<RowKey, int>, items: seq<Record>, dateOf: nat -> string): map<RowKey, int>
    requires forall j :: 0 <= j < |items| ==> ValidRecord(items[j])
  {
    if items == [] then rows
    else
      var last := |items| - 1;
      ApplyRecord(ApplyAll(rows, items[..last], dateOf), items[last], dateOf(last))
  }

  /** The sum of the `postCount`s the records give the row `k`: those of `k`'s user read
      on `k`'s date. */
  function DeltaSum(items: seq<Record>, dateOf: nat -> string, k: RowKey): int
    requires forall j :: 0 <= j < |items| ==> ValidRecord(items[j])
  {
    if items == [] then 0
    else
      var last := |items| - 1;
      var r := items[last];
      assert ValidRecord(r);
      DeltaSum(items[..last], dateOf, k) + (if (r.username.value, dateOf(last)) == k then r.postCount.value else 0)
  }

  /** Whether some record of the batch goes to the row `k`. */
  predicate Names(items: seq<Record>, dateOf: nat -> string, k: RowKey) {
    exists j :: 0 <= j < |items| && items[j].username == Some(k.0) && dateOf(j) == k.1
  }

  /** After a batch, a row's count is the old count (0 without a row) plus the sum of the
      increments its user got on its date, repeats adding up; the row exists exactly when
      it existed or some record goes to it. */
  lemma {:induction false} ApplyAllCounts(rows: map<RowKey, int>, items: seq<Record>, dateOf: nat -> string, k: RowKey)
    requires forall j :: 0 <= j < |items| ==> ValidRecord(items[j])
    ensures CountOf(ApplyAll(rows, items, dateOf), k) == CountOf(rows, k) + DeltaSum(items, dateOf, k)
    ensures k in ApplyAll(rows, items, dateOf) <==> k in rows || Names(items, dateOf, k)
  {
    if items != [] {
      var last := |items| - 1;
      var init := items[..last];
      ApplyAllCounts(rows, init, dateOf, k);
      assert Names(items, dateOf, k) <==> Names(init, dateOf, k) || (items[last].username == Some(k.0) && dateOf(last) == k.1) by {
        if Names(items, dateOf, k) {
          var j :| 0 <= j < |items| && items[j].username == Some(k.0) && dateOf(j) == k.1;
          if j < |init| {
            assert init[j] == items[j];
          }
        }
        if Names(init, dateOf, k) {
          var j :| 0 <= j < |init| && init[j].username == Some(k.0) && dateOf(j) == k.1;
          assert items[j] == init[j];
        }
      }
    }
  }

  /** Rows no record of the batch goes to are untouched. */
  lemma {:induction false} ApplyAllKeepsOthers(rows: map<RowKey, int>, items: seq<Record>, dateOf: nat -> string, k: RowKey)
    requires forall j :: 0 <= j < |items| ==> ValidRecord(items[j])
    requires !Names(items, dateOf, k)
    ensures k in ApplyAll(rows, items, dateOf) <==> k in rows
    ensures k in rows ==> ApplyAll(rows, items, dateOf)[k] == rows[k]
  {
    if items != [] {
      var last := |items| - 1;
      var init := items[..last];
      forall j | 0 <= j < |init|
        ensures init[j].username != Some(k.0) || dateOf(j) != k.1
      {
        assert init[j] == items[j];
      }
      ApplyAllKeepsOthers(rows, init, dateOf, k);
      assert items[last].username != Some(k.0) || dateOf(last) != k.1;
    }
  }

  /** A batch that crosses midnight: a user's records read before it count for the first
      date and those read after it for the second, each row getting only its own. */
  lemma AcrossMidnight(rows: map<RowKey, int>, user: string, a: int, b: int, dateOf: nat -> string)
    requires user != "" && dateOf(0) != dateOf(1)
    ensures
      var items := [Record(Some(user), Some(a)), Record(Some(user), Some(b))];
      var after := ApplyAll(rows, items, dateOf);
      && CountOf(after, (user, dateOf(0))) == CountOf(rows, (user, dateOf(0))) + a
      && CountOf(after, (user, dateOf(1))) == CountOf(rows, (user, dateOf(1))) + b
  {
    var items := [Record(Some(user), Some(a)), Record(Some(user), Some(b))];
    ApplyAllCounts(rows, items, dateOf, (user, dateOf(0)));
    ApplyAllCounts(rows, items, dateOf, (user, dateOf(1)));
    var first := items[..1];
    assert first[..0] == [];
    forall k: RowKey
      ensures DeltaSum(items, dateOf, k)
        == (if (user, dateOf(0)) == k then a else 0) + (if (user, dateOf(1)) == k then b else 0)
    {
      assert DeltaSum(first, dateOf, k) == (if (user, dateOf(0)) == k then a else 0);
    }
  }

  /** The status `update` answers with: 401 for a wrong `api_key` (a missing key matches a
      missing server key), 400 for a non-array or empty `records`, 500 when a record fails
      the check or the database fails at some record, 200 otherwise. */
  function UpdateStatus(apiKey: Option<string>, serverKey: Option<string>, records: RecordsArg, failAt: Option<nat>): (status: nat)
    ensures status in {200, 400, 401, 500}
    ensures status == 401 <==> apiKey != serverKey
    ensures status == 400 <==> apiKey == serverKey && (records.NotAnArray? || records.items == [])
    ensures status == 200 <==>
      && apiKey == serverKey && records.Records? && records.items != []
      && forall j :: 0 <= j < |records.items| ==> ValidRecord(records.items[j]) && failAt != Some(j)
  {
    if apiKey != serverKey then 401
    else if records.NotAnArray? || records.items == [] then 400
    else if exists j :: 0 <= j < |records.items| && (!ValidRecord(records.items[j]) || failAt == Some(j)) then 500
    else 200
  }

  // ---------------------------------------------------------------------------
  // init
  // ---------------------------------------------------------------------------

  /** The `worklist` field: something `for ... of` cannot walk, or a list of accounts, each
      with its `username` (missing or a string). */
  datatype WorklistArg = NotAList | Accounts(usernames: seq<Option<string>>)

  /** One account: a zero row for today unless there already is one. */
  function InitOne(rows: map<RowKey, int>, user: string, today: string): map<RowKey, int> {
    if (user, today) in rows then rows else rows[(user, today) := 0]
  }

  /** The accounts handled in order. */
  function InitAll(rows: map<RowKey, int>, users: seq<string>, today: string): map<RowKey, int> {
    if users == [] then rows
    else InitOne(InitAll(rows, users[..|users| - 1], today), users[|users| - 1], today)
  }

  /** After `init`, every listed user has a row for today; a row that existed keeps its
      count, a new one holds 0, and no other row appears. */
  lemma {:induction false} InitAllSpec(rows: map<RowKey, int>, users: seq<string>, today: string, k: RowKey)
    ensures k in InitAll(rows, users, today) <==> k in rows || (k.1 == today && k.0 in users)
    ensures k in rows ==> InitAll(rows, users, today)[k] == rows[k]
    ensures k !in rows && k in InitAll(rows, users, today) ==> InitAll(rows, users, today)[k] == 0
  {
    if users != [] {
      var init := users[..|users| - 1];
      InitAllSpec(rows, init, today, k);
      assert k.0 in users <==> k.0 in init || k.0 == users[|users| - 1] by {
        assert users == init + [users[|users| - 1]];
      }
    }
  }

  /** Running `init` twice with the same list adds nothing the second time. */
  lemma InitIdempotent(rows: map<RowKey, int>, users: seq<string>, today: string)
    ensures InitAll(InitAll(rows, users, today), users, today) == InitAll(rows, users, today)
  {
    var once := InitAll(rows, users, today);
    var twice := InitAll(once, users, today);
    forall k | k in twice || k in once
      ensures k in twice && k in once && twice[k] == once[k]
    {
      InitAllSpec(rows, users, today, k);
      InitAllSpec(once, users, today, k);
    }
  }

  /** A username listed again adds no second row. */
  lemma InitRepeatAddsNothing(rows: map<RowKey, int>, users: seq<string>, user: string, today: string)
    requires user in users
    ensures InitAll(rows, users + [user], today) == InitAll(rows, users, today)
  {
    InitAllSpec(rows, users, today, (user, today));
    assert (users + [user])[..|users|] == users;
  }

  /** How far `init` gets: the first account whose username is missing (the driver refuses
      an `undefined` parameter) or at which the database fails stops the loop. */
  function InitReach(usernames: seq<Option<string>>, failAt: Option<nat>): (n: nat)
    ensures n <= |usernames|
    ensures forall j :: 0 <= j < n ==> usernames[j].Some? && failAt != Some(j)
    ensures n < |usernames| ==> usernames[n].None? || failAt == Some(n)
  {
    if usernames == [] || usernames[0].None? || failAt == Some(0) then 0
    else
      var rest := InitReach(usernames[1..], if failAt.Some? && failAt.value > 0 then Some(failAt.value - 1) else None);
      assert forall j :: 1 <= j < rest + 1 ==> usernames[j] == usernames[1..][j - 1];
      rest + 1
  }

  /** The usernames of the accounts `init` handles, in order. */
  function Handled(usernames: seq<Option<string>>, failAt: Option<nat>): (users: seq<string>)
    ensures |users| == InitReach(usernames, failAt)
    ensures forall j :: 0 <= j < |users| ==> usernames[j] == Some(users[j])
  {
    var n := InitReach(usernames, failAt);
    seq(n, j requires 0 <= j < n => usernames[j].value)
  }

  /** `Handled` is the one list of that length the accounts carry. */
  lemma HandledIs(usernames: seq<Option<string>>, failAt: Option<nat>, users: seq<string>)
    requires |users| == InitReach(usernames, failAt)
    requires forall j :: 0 <= j < |users| ==> usernames[j] == Some(users[j])
    ensures Handled(usernames, failAt) == users
  {
    var h := Handled(usernames, failAt);
    assert forall j :: 0 <= j < |users| ==> h[j] == users[j];
  }

  /** The table of daily progress rows. */
  class DailyTable {
    var rows: map<RowKey, int>

    constructor (initial: map<RowKey, int>)
      ensures rows == initial
    {
      rows := initial;
    }

    /** `POST /api/daily-records/update`: the records are applied one by one to the
        transaction's view of the table; the view is committed only when every record has
        been applied, and otherwise rolled back. `failAt` is the record at which the
        database reports an error, if any, and `dateOf(j)` the KST date read for record
        `j`. */
    method Update(apiKey: Option<string>, serverKey: Option<string>, records: RecordsArg, dateOf: nat -> string, failAt: Option<nat>)
      returns (status: nat)
      modifies this
      ensures status == UpdateStatus(apiKey, serverKey, records, failAt)
      ensures status == 200 ==> rows == ApplyAll(old(rows), records.items, dateOf)
      ensures status != 200 ==> rows == old(rows)
    {
      if apiKey != serverKey {
        return 401;
      }
      if records.NotAnArray? || records.items == [] {
        return 400;
      }
      var items := records.items;
      var pending := rows;
      var i := 0;
      while i < |items|
        invariant 0 <= i <= |items|
        invariant forall j :: 0 <= j < i ==> ValidRecord(items[j]) && failAt != Some(j)
        invariant pending == ApplyAll(rows, items[..i], dateOf)
      {
        var r := items[i];
        if !TruthyText(r.username) || r.postCount.None? {
          return 500;
        }
        if failAt == Some(i) {
          return 500;
        }
        assert items[..i + 1][..i] == items[..i];
        var k := (r.username.value, dateOf(i));
        if k in pending {
          pending := pending[k := pending[k] + r.postCount.value];
        } else {
          pending := pending[k := r.postCount.value];
        }
        i := i + 1;
      }
      assert items[..i] == items;
      rows := pending;
      return 200;
    }

    /** `POST /api/daily-records/init`: for each account, a zero row for today unless one
        exists. There is no transaction: when the loop stops early the rows added so far
        stay and the answer is 500. */
    method Init(worklist: WorklistArg, today: string, failAt: Option<nat>) returns (status: nat)
      modifies this
      ensures worklist.NotAList? ==> status == 500 && rows == old(rows)
      ensures worklist.Accounts? ==>
        var handled := Handled(worklist.usernames, failAt);
        && rows == InitAll(old(rows), handled, today)
        && status == (if |handled| == |worklist.usernames| then 200 else 500)
    {
      if worklist.NotAList? {
        return 500;
      }
      var accounts := worklist.usernames;
      ghost var n := InitReach(accounts, failAt);
      ghost var users: seq<string> := [];
      var i := 0;
      while i < |accounts|
        invariant 0 <= i <= n
        invariant |users| == i && forall j :: 0 <= j < i ==> accounts[j] == Some(users[j])
        invariant rows == InitAll(old(rows), users, today)
      {
        if accounts[i].None? || failAt == Some(i) {
          assert i == n;
          HandledIs(accounts, failAt, users);
          return 500;
        }
        var user := accounts[i].value;
        assert (users + [user])[..i] == users;
        if (user, today) !in rows {
          rows := rows[(user, today) := 0];
        }
        users := users + [user];
        i := i + 1;
      }
      HandledIs(accounts, failAt, users);
      return 200;
    }
  }
}
