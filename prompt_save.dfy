/** `POST /api/prompt-status/save`: the uploaded prompts are checked against the prompts
    already stored, and only those not stored yet are inserted, in one statement. The two
    database calls are inputs: the set of stored prompts and whether each call succeeds. */
module PromptSave {
  import opened Util

  /** An element of `items`: `null`, or an object whose `프롬프트` ("prompt") property is read
      (`None` when it is missing). */
  datatype PromptItem = NullPrompt | Upload(prompt: Option<string>)

  /** The `items` field of the request body. */
  datatype PromptsArg = NotAnArray | PromptList(items: seq<PromptItem>)

  /** Whether the filter drops an uploaded prompt: `existingSet.has(item["프롬프트"])`. A
      missing prompt is never in the set (the set holds the stored strings). */
  predicate IsStored(p: Option<string>, stored: set<string>) {
    p.Some? && p.value in stored
  }

  predicate AllPresent(items: seq<PromptItem>) {
    forall k :: 0 <= k < |items| ==> items[k].Upload?
  }

  /** `items.filter(item => !existingSet.has(item["프롬프트"]))`, as prompts. */
  function NewPrompts(items: seq<PromptItem>, stored: set<string>): seq<Option<string>>
    requires AllPresent(items)
    decreases |items|
  {
    if items == [] then []
    else
      var p := items[|items| - 1].prompt;
      NewPrompts(items[..|items| - 1], stored) + (if IsStored(p, stored) then [] else [p])
  }

  /** The filter keeps upload order: filtering two pieces is filtering the whole. */
  lemma {:induction false} NewPromptsAppend(a: seq<PromptItem>, b: seq<PromptItem>, stored: set<string>)
    requires AllPresent(a) && AllPresent(b)
    ensures AllPresent(a + b)
    ensures NewPrompts(a + b, stored) == NewPrompts(a, stored) + NewPrompts(b, stored)
    decreases |b|
  {
    var ab := a + b;
    assert forall k :: 0 <= k < |ab| ==> ab[k] == if k < |a| then a[k] else b[k - |a|];
    if b == [] {
      assert ab == a;
    } else {
      assert ab[..|ab| - 1] == a + b[..|b| - 1];
      NewPromptsAppend(a, b[..|b| - 1], stored);
    }
  }

  /** The prompts of an upload, as a multiset. */
  function Uploaded(items: seq<PromptItem>): multiset<Option<string>>
    requires AllPresent(items)
    decreases |items|
  {
    if items == [] then multiset{} else Uploaded(items[..|items| - 1]) + multiset{items[|items| - 1].prompt}
  }

  /** The new prompts are exactly the uploaded ones that are not stored, each as many times as
      it was uploaded: repeats within one upload are not collapsed. */
  lemma {:induction false} NewPromptsCounts(items: seq<PromptItem>, stored: set<string>, p: Option<string>)
    requires AllPresent(items)
    ensures multiset(NewPrompts(items, stored))[p] == if IsStored(p, stored) then 0 else Uploaded(items)[p]
    decreases |items|
  {
    if items != [] {
      NewPromptsCounts(items[..|items| - 1], stored, p);
    }
  }

  /** An upload whose prompts are all stored has nothing new. */
  lemma {:induction false} AllStoredNothingNew(items: seq<PromptItem>, stored: set<string>)
    requires AllPresent(items)
    requires forall k :: 0 <= k < |items| ==> IsStored(items[k].prompt, stored)
    ensures NewPrompts(items, stored) == []
    decreases |items|
  {
    if items != [] {
      AllStoredNothingNew(items[..|items| - 1], stored);
    }
  }

  const InvalidMessage: string := "Invalid items data"
  const ErrorMessage: string := "Database error"
  /** "All prompts are already stored." */
  const AllStoredMessage: string := "모든 프롬프트가 이미 저장되어 있습니다."
  /** "... new prompts were stored.", after the count. */
  const SavedSuffix: string := "개의 새로운 프롬프트가 저장되었습니다."

  /** The success message: the number of new prompts, then the suffix. */
  function SavedMessage(n: nat): (m: string)
    ensures |m| > |SavedSuffix| && m[|m| - |SavedSuffix|..] == SavedSuffix
  {
    NatToString(n) + SavedSuffix
  }

  /** The message reports the count: its leading digits read back as `n`. */
  lemma SavedMessageReportsCount(n: nat)
    ensures var m := SavedMessage(n);
      IsDigits(m[..|m| - |SavedSuffix|]) && DigitsValue(m[..|m| - |SavedSuffix|]) == n
  {
    var m := SavedMessage(n);
    assert m[..|m| - |SavedSuffix|] == NatToString(n);
    NatToStringRoundTrip(n);
  }

  /** The JSON reply and the rows the request inserts. */
  datatype SaveResult = SaveResult(status: nat, success: bool, message: string, inserted: seq<Option<string>>)

  /** The route. `stored` is what the `SELECT` finds, `selectOk` and `insertOk` say whether
      each statement succeeds; the insert is all or nothing. */
  function SavePrompts(arg: PromptsArg, stored: set<string>, selectOk: bool, insertOk: bool): (r: SaveResult)
    ensures r.status == 400 <==> arg.NotAnArray? || arg == PromptList([])
    ensures r.status == 500 <==> (arg.PromptList? && arg.items != [] &&
      (!AllPresent(arg.items) || !selectOk || (NewPrompts(arg.items, stored) != [] && !insertOk)))
    ensures r.success <==> r.inserted != []
    ensures r.inserted != [] ==>
      && r.status == 200
      && arg.PromptList? && AllPresent(arg.items)
      && r.inserted == NewPrompts(arg.items, stored)
      && r.message == SavedMessage(|r.inserted|)
    ensures r.status == 200 && !r.success <==>
      (arg.PromptList? && arg.items != [] && AllPresent(arg.items) && selectOk && NewPrompts(arg.items, stored) == [])
  {
    match arg
    case NotAnArray => SaveResult(400, false, InvalidMessage, [])
    case PromptList(items) =>
      if items == [] then SaveResult(400, false, InvalidMessage, [])
      else if !AllPresent(items) || !selectOk then SaveResult(500, false, ErrorMessage, [])
      else
        var added := NewPrompts(items, stored);
        if added == [] then SaveResult(200, false, AllStoredMessage, [])
        else if !insertOk then SaveResult(500, false, ErrorMessage, [])
        else SaveResult(200, true, SavedMessage(|added|), added)
  }

  /** The prompt strings among the inserted rows. */
  function Strings(rows: seq<Option<string>>): (s: set<string>)
    ensures forall k :: 0 <= k < |rows| && rows[k].Some? ==> rows[k].value in s
    decreases |rows|
  {
    if rows == [] then {}
    else Strings(rows[..|rows| - 1]) + (match rows[|rows| - 1] case Some(p) => {p} case None => {})
  }

  /** Sending the same upload again, after a first save of it has gone through, inserts
      nothing and answers `success: false` with status 200 — provided every item has a
      prompt (a missing one is inserted as `NULL`, which the `IN` query never finds). */
  lemma SaveTwiceInsertsNothing(items: seq<PromptItem>, stored: set<string>)
    requires items != [] && AllPresent(items)
    requires forall k :: 0 <= k < |items| ==> items[k].prompt.Some?
    ensures var first := SavePrompts(PromptList(items), stored, true, true);
      var second := SavePrompts(PromptList(items), stored + Strings(first.inserted), true, true);
      second.status == 200 && !second.success && second.inserted == []
  {
    var first := SavePrompts(PromptList(items), stored, true, true);
    var stored' := stored + Strings(first.inserted);
    forall k | 0 <= k < |items|
      ensures IsStored(items[k].prompt, stored')
    {
      var p := items[k].prompt;
      if !IsStored(p, stored) {
        NewPromptsCounts(items, stored, p);
        UploadedHas(items, k);
        assert p in multiset(first.inserted);
      }
    }
    AllStoredNothingNew(items, stored');
  }

  lemma {:induction false} UploadedHas(items: seq<PromptItem>, k: nat)
    requires AllPresent(items) && k < |items|
    ensures Uploaded(items)[items[k].prompt] > 0
    decreases |items|
  {
    if k < |items| - 1 {
      UploadedHas(items[..|items| - 1], k);
    }
  }
}
