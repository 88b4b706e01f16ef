/** `POST /api/keywords/save`: the uploaded keyword list is written to the `keywords` table in
    batches of 500 with `INSERT IGNORE`, one statement per batch and no transaction. The
    table's unique key is not in the repository; it is a parameter here (`key`), a row whose
    key is `None` (SQL `NULL`) never collides. */
module KeywordsSave {
  import opened Util

  const BatchSize: nat := 500

  /** A stored row: `(keyword, first_keyword)`; `None` is SQL `NULL`. */
  type KeywordRow = (Option<string>, Option<string>)

  /** An element of the uploaded `keywords` array: `null`, or a value whose `keyword` and
      `first_keyword` properties are read (a bare string or number has neither, so both are
      `None`). */
  datatype KeywordItem = NullItem | Item(keyword: Option<string>, firstKeyword: Option<string>)

  /** The `keywords` field of the request body: missing or `null`, something other than an
      array, or an array. */
  datatype KeywordsArg = Absent | NotAnArray | KeywordList(items: seq<KeywordItem>)

  /** `item.keyword` throws on no element of `items`. */
  predicate AllPresent(items: seq<KeywordItem>) {
    forall k :: 0 <= k < |items| ==> items[k].Item?
  }

  /** The values list of one statement: `[item.keyword, item.first_keyword]` per item, in
      order. */
  function Rows(items: seq<KeywordItem>): (r: seq<KeywordRow>)
    requires AllPresent(items)
    ensures |r| == |items|
    ensures forall k :: 0 <= k < |items| ==> r[k] == (items[k].keyword, items[k].firstKeyword)
    decreases |items|
  {
    if items == [] then []
    else
      var last := items[|items| - 1];
      Rows(items[..|items| - 1]) + [(last.keyword, last.firstKeyword)]
  }

  /** Some row of `t` already holds the (non-`NULL`) unique key of `v`. */
  predicate Taken(t: seq<KeywordRow>, v: KeywordRow, key: KeywordRow -> Option<string>) {
    key(v).Some? && exists r :: r in t && key(r) == key(v)
  }

  /** No two rows of `t` share a non-`NULL` key. */
  predicate UniqueKeys(t: seq<KeywordRow>, key: KeywordRow -> Option<string>) {
    forall i, j :: 0 <= i < j < |t| && key(t[i]).Some? ==> key(t[i]) != key(t[j])
  }

  /** `INSERT IGNORE` of one row: a row whose key is taken is skipped. */
  function InsertRow(t: seq<KeywordRow>, v: KeywordRow, key: KeywordRow -> Option<string>): seq<KeywordRow> {
    if Taken(t, v, key) then t else t + [v]
  }

  /** `INSERT IGNORE ... VALUES ?` with the values in order; a value may collide with a row
      inserted earlier by the same statement. */
  function InsertIgnore(t: seq<KeywordRow>, values: seq<KeywordRow>, key: KeywordRow -> Option<string>): seq<KeywordRow>
    decreases |values|
  {
    if values == [] then t
    else InsertRow(InsertIgnore(t, values[..|values| - 1], key), values[|values| - 1], key)
  }

  /** Rows already stored are never changed; only some of the values are added, at the end. */
  lemma {:induction false} InsertIgnoreKeeps(t: seq<KeywordRow>, values: seq<KeywordRow>, key: KeywordRow -> Option<string>)
    ensures |t| <= |InsertIgnore(t, values, key)| <= |t| + |values|
    ensures InsertIgnore(t, values, key)[..|t|] == t
    ensures forall k :: |t| <= k < |InsertIgnore(t, values, key)| ==> InsertIgnore(t, values, key)[k] in values
    decreases |values|
  {
    if values != [] {
      var init := values[..|values| - 1];
      var v := values[|values| - 1];
      InsertIgnoreKeeps(t, init, key);
      var p := InsertIgnore(t, init, key);
      forall k | |t| <= k < |InsertIgnore(t, values, key)|
        ensures InsertIgnore(t, values, key)[k] in values
      {
        if k < |p| {
          assert p[k] in init;
        }
      }
    }
  }

  /** No value makes the statement fail: each one is stored, or its key is already taken. */
  lemma {:induction false} InsertIgnoreStoresOrSkips(t: seq<KeywordRow>, values: seq<KeywordRow>, key: KeywordRow -> Option<string>)
    ensures forall v :: v in values ==>
      v in InsertIgnore(t, values, key) || Taken(InsertIgnore(t, values, key), v, key)
    decreases |values|
  {
    if values != [] {
      var init := values[..|values| - 1];
      var last := values[|values| - 1];
      InsertIgnoreStoresOrSkips(t, init, key);
      var p := InsertIgnore(t, init, key);
      var r := InsertIgnore(t, values, key);
      assert r == InsertRow(p, last, key);
      assert forall x :: x in p ==> x in r;
      forall v | v in values
        ensures v in r || Taken(r, v, key)
      {
        if v != last {
          assert v in init;
          if v !in p {
            var x :| x in p && key(x) == key(v);
            assert x in r;
          }
        }
      }
    }
  }

  /** `INSERT IGNORE` keeps the unique key unique. */
  lemma {:induction false} InsertIgnoreKeepsUnique(t: seq<KeywordRow>, values: seq<KeywordRow>, key: KeywordRow -> Option<string>)
    requires UniqueKeys(t, key)
    ensures UniqueKeys(InsertIgnore(t, values, key), key)
    decreases |values|
  {
    if values != [] {
      var init := values[..|values| - 1];
      var v := values[|values| - 1];
      InsertIgnoreKeepsUnique(t, init, key);
      var p := InsertIgnore(t, init, key);
      if !Taken(p, v, key) {
        var r := p + [v];
        forall i, j | 0 <= i < j < |r| && key(r[i]).Some?
          ensures key(r[i]) != key(r[j])
        {
          if j == |p| {
            assert r[i] in p;
          }
        }
      }
    }
  }

  /** Two statements in a row insert what one statement with both value lists inserts. */
  lemma {:induction false} InsertIgnoreAppend(t: seq<KeywordRow>, a: seq<KeywordRow>, b: seq<KeywordRow>, key: KeywordRow -> Option<string>)
    ensures InsertIgnore(t, a + b, key) == InsertIgnore(InsertIgnore(t, a, key), b, key)
    decreases |b|
  {
    if b == [] {
      assert a + b == a;
    } else {
      var ab := a + b;
      assert ab[..|ab| - 1] == a + b[..|b| - 1];
      assert ab[|ab| - 1] == b[|b| - 1];
      InsertIgnoreAppend(t, a, b[..|b| - 1], key);
    }
  }

  /** The batches of the loop: `keywords.slice(i, i + 500)` for `i = 0, 500, ...`. */
  function Batches(items: seq<KeywordItem>): seq<seq<KeywordItem>> {
    Chunks(items, BatchSize)
  }

  /** There are ceil(n/500) batches, none empty, none longer than 500, and together they are
      the whole list in order. */
  lemma BatchesCoverInput(items: seq<KeywordItem>)
    ensures |Batches(items)| == CeilDiv(|items|, BatchSize)
    ensures Flatten(Batches(items)) == items
    ensures forall b :: 0 <= b < |Batches(items)| ==> 0 < |Batches(items)[b]| <= BatchSize
  {
    ChunksCount(items, BatchSize);
    ChunksFlatten(items, BatchSize);
    forall b | 0 <= b < |Batches(items)|
      ensures 0 < |Batches(items)[b]| <= BatchSize
    {
      ChunkSizes(items, BatchSize, b);
    }
  }

  /** The number of batches the loop gets through: it stops at the first batch holding a
      `null` element (the `map` throws before the statement is sent) or at the batch on which
      the database reports an error (`failAt`). */
  function Reach(batches: seq<seq<KeywordItem>>, failAt: Option<nat>, from: nat): (n: nat)
    requires from <= |batches|
    ensures from <= n <= |batches|
    ensures forall b :: from <= b < n ==> AllPresent(batches[b]) && failAt != Some(b)
    ensures n < |batches| ==> !AllPresent(batches[n]) || failAt == Some(n)
    decreases |batches| - from
  {
    if from == |batches| || !AllPresent(batches[from]) || failAt == Some(from) then from
    else Reach(batches, failAt, from + 1)
  }

  /** The table after one statement per batch, in order. */
  function InsertBatches(t: seq<KeywordRow>, batches: seq<seq<KeywordItem>>, key: KeywordRow -> Option<string>): seq<KeywordRow>
    requires forall b :: 0 <= b < |batches| ==> AllPresent(batches[b])
    decreases |batches|
  {
    if batches == [] then t
    else InsertIgnore(InsertBatches(t, batches[..|batches| - 1], key), Rows(batches[|batches| - 1]), key)
  }

  /** The batch the loop cuts at `i = b * 500` is the `b`-th of `Batches`. */
  lemma BatchAt(items: seq<KeywordItem>, b: nat)
    requires b * BatchSize < |items|
    ensures b < |Batches(items)|
    ensures Batches(items)[b] == items[b * BatchSize .. Min(b * BatchSize + BatchSize, |items|)]
  {
    ChunkIndex(items, BatchSize, b);
    ChunkAt(items, BatchSize, b);
  }

  /** The loop ends, with `i >= n`, after the last batch. */
  lemma BatchesEnd(items: seq<KeywordItem>, b: nat)
    requires b <= |Batches(items)| && b * BatchSize >= |items|
    ensures b == |Batches(items)|
  {
    ChunkIndex(items, BatchSize, b);
  }

  /** Before `Reach`, the loop stops at batch `b` exactly when `b` is `Reach`. */
  lemma ReachStops(batches: seq<seq<KeywordItem>>, failAt: Option<nat>, b: nat)
    requires b < |batches| && b <= Reach(batches, failAt, 0)
    ensures !AllPresent(batches[b]) || failAt == Some(b) <==> b == Reach(batches, failAt, 0)
  {
  }

  /** One more batch is one more statement. */
  lemma InsertBatchesStep(t: seq<KeywordRow>, batches: seq<seq<KeywordItem>>, b: nat, key: KeywordRow -> Option<string>)
    requires b < |batches| && forall j :: 0 <= j <= b ==> AllPresent(batches[j])
    ensures InsertBatches(t, batches[..b + 1], key) == InsertIgnore(InsertBatches(t, batches[..b], key), Rows(batches[b]), key)
  {
    assert batches[..b + 1][..b] == batches[..b];
  }

  lemma {:induction false} RowsAppend(a: seq<KeywordItem>, b: seq<KeywordItem>)
    requires AllPresent(a) && AllPresent(b)
    ensures AllPresent(a + b) && Rows(a + b) == Rows(a) + Rows(b)
  {
    var ab := a + b;
    assert forall k :: 0 <= k < |ab| ==> ab[k] == if k < |a| then a[k] else b[k - |a|];
  }

  /** Cutting the statement into batches changes nothing: when every batch goes through, the
      table is what one `INSERT IGNORE` of all the values would give. */
  lemma {:induction false} BatchingTransparent(t: seq<KeywordRow>, batches: seq<seq<KeywordItem>>, key: KeywordRow -> Option<string>)
    requires forall b :: 0 <= b < |batches| ==> AllPresent(batches[b])
    ensures AllPresent(Flatten(batches))
    ensures InsertBatches(t, batches, key) == InsertIgnore(t, Rows(Flatten(batches)), key)
    decreases |batches|
  {
    if batches == [] {
    } else {
      var init := batches[..|batches| - 1];
      var last := batches[|batches| - 1];
      BatchingTransparent(t, init, key);
      assert batches == init + [last];
      FlattenAppend(init, [last]);
      assert Flatten([last]) == last + Flatten<KeywordItem>([]) == last;
      assert Flatten(batches) == Flatten(init) + last;
      RowsAppend(Flatten(init), last);
      InsertIgnoreAppend(t, Rows(Flatten(init)), Rows(last), key);
    }
  }

  /** With every element present and no database error, the request stores exactly what one
      `INSERT IGNORE` of all the items' rows would. */
  lemma SaveAllAtOnce(t: seq<KeywordRow>, items: seq<KeywordItem>, failAt: Option<nat>, key: KeywordRow -> Option<string>)
    requires AllPresent(items)
    requires failAt.None? || failAt.value >= |Batches(items)|
    ensures Reach(Batches(items), failAt, 0) == |Batches(items)|
    ensures InsertBatches(t, Batches(items), key) == InsertIgnore(t, Rows(items), key)
  {
    var bs := Batches(items);
    forall b | 0 <= b < |bs|
      ensures AllPresent(bs[b])
    {
      ChunkAt(items, BatchSize, b);
    }
    ChunksFlatten(items, BatchSize);
    BatchingTransparent(t, bs, key);
  }

  /** The response status of the request. */
  function SaveStatus(arg: KeywordsArg, failAt: Option<nat>): (status: nat)
    ensures status == 500 <==> (arg.Absent? ||
      (arg.KeywordList? && arg.items != [] && Reach(Batches(arg.items), failAt, 0) < |Batches(arg.items)|))
    ensures status == 400 <==> arg.NotAnArray? || arg == KeywordList([])
    ensures status == 200 <==> (arg.KeywordList? && arg.items != [] &&
      Reach(Batches(arg.items), failAt, 0) == |Batches(arg.items)|)
  {
    match arg
    case Absent => 500
    case NotAnArray => 400
    case KeywordList(items) =>
      if items == [] then 400
      else if Reach(Batches(items), failAt, 0) == |Batches(items)| then 200
      else 500
  }

  class KeywordTable {
    var rows: seq<KeywordRow>
    const key: KeywordRow -> Option<string>

    constructor (initial: seq<KeywordRow>, key: KeywordRow -> Option<string>)
      ensures rows == initial && this.key == key
    {
      rows := initial;
      this.key := key;
    }

    /** `POST /api/keywords/save`. A missing `keywords` throws at `.length` and answers 500;
        a non-array or empty list answers 400 with nothing written. Otherwise the batches are
        sent one statement each; the first batch that throws or fails ends the request with
        500, and the batches before it stay in the table. */
    method Save(arg: KeywordsArg, failAt: Option<nat>) returns (status: nat)
      modifies this
      ensures status == SaveStatus(arg, failAt)
      ensures !arg.KeywordList? || arg.items == [] ==> rows == old(rows)
      ensures arg.KeywordList? && arg.items != [] ==>
        var bs := Batches(arg.items);
        rows == InsertBatches(old(rows), bs[..Reach(bs, failAt, 0)], key)
    {
      if arg.Absent? {
        return 500;
      }
      if arg.NotAnArray? || arg.items == [] {
        return 400;
      }
      var keywords := arg.items;
      ghost var bs := Batches(keywords);
      ghost var reach := Reach(bs, failAt, 0);
      var i := 0;
      var b := 0;
      while i < |keywords|
        invariant b <= reach
        invariant i == b * BatchSize
        invariant rows == InsertBatches(old(rows), bs[..b], key)
      {
        BatchAt(keywords, b);
        var batch := keywords[i..Min(i + BatchSize, |keywords|)];
        assert batch == bs[b];
        ReachStops(bs, failAt, b);
        if !AllPresent(batch) || failAt == Some(b) {
          return 500;
        }
        InsertBatchesStep(old(rows), bs, b, key);
        rows := InsertIgnore(rows, Rows(batch), key);
        assert (b + 1) * BatchSize == i + BatchSize;
        i := i + BatchSize;
        b := b + 1;
      }
      BatchesEnd(keywords, b);
      assert bs[..b] == bs;
      return 200;
    }
  }
}
