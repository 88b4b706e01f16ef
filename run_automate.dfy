/** The run driver of `run_automate.js`: it loads the names of the configured Gemini keys,
    reads the day's post goal, and hands the keys one by one to the publishing worker until
    every account has reached the goal. HTTP replies and environment variables are inputs;
    the worker itself is not part of this model. */
module RunAutomate {
  import opened Util

  const KeyPrefix: string := "GEMINI_API_KEY"
  const MaxKeys: nat := 62
  /** The goal used whenever the time setting cannot be read. */
  const FallbackPostCount: int := 10

  // ---------------------------------------------------------------------------
  // loadGeminiApiKeys
  // ---------------------------------------------------------------------------

  /** `GEMINI_API_KEY${i}`. */
  function KeyName(i: nat): string {
    KeyPrefix + NatToString(i)
  }

  /** Different indices name different variables. */
  lemma KeyNameInjective(i: nat, j: nat)
    requires KeyName(i) == KeyName(j)
    ensures i == j
  {
    assert KeyName(i)[|KeyPrefix|..] == NatToString(i);
    assert KeyName(j)[|KeyPrefix|..] == NatToString(j);
    NatToStringInjective(i, j);
  }

  /** The indices among `1..n` whose variable holds a non-empty value, in increasing order. */
  function SetIndices(env: string -> Option<string>, n: nat): seq<nat> {
    if n == 0 then []
    else SetIndices(env, n - 1) + (if TruthyText(env(KeyName(n))) then [n] else [])
  }

  /** The variable names of a list of indices. */
  function Names(idx: seq<nat>): seq<string> {
    if idx == [] then [] else Names(idx[..|idx| - 1]) + [KeyName(idx[|idx| - 1])]
  }

  lemma {:induction false} NamesAt(idx: seq<nat>)
    ensures |Names(idx)| == |idx|
    ensures forall k :: 0 <= k < |idx| ==> Names(idx)[k] == KeyName(idx[k])
  {
    if idx != [] {
      NamesAt(idx[..|idx| - 1]);
    }
  }

  /** The indices kept are strictly increasing, lie in `1..n`, have a non-empty value, and
      every index in `1..n` with a non-empty value is kept. */
  lemma {:induction false} SetIndicesSpec(env: string -> Option<string>, n: nat)
    ensures |SetIndices(env, n)| <= n
    ensures forall k :: 0 <= k < |SetIndices(env, n)| ==>
      1 <= SetIndices(env, n)[k] <= n && TruthyText(env(KeyName(SetIndices(env, n)[k])))
    ensures forall k, l :: 0 <= k < l < |SetIndices(env, n)| ==> SetIndices(env, n)[k] < SetIndices(env, n)[l]
    ensures forall i :: 1 <= i <= n && TruthyText(env(KeyName(i))) ==> i in SetIndices(env, n)
  {
    if n > 0 {
      SetIndicesSpec(env, n - 1);
      var prev := SetIndices(env, n - 1);
      assert forall k :: 0 <= k < |prev| ==> SetIndices(env, n)[k] == prev[k];
    }
  }

  /** `loadGeminiApiKeys`: the names (not the values) of `GEMINI_API_KEY1` to
      `GEMINI_API_KEY62` whose environment value is non-empty, in index order. */
  method LoadGeminiApiKeys(env: string -> Option<string>) returns (apiKeys: seq<string>)
    ensures apiKeys == Names(SetIndices(env, MaxKeys))
  {
    apiKeys := [];
    var i := 1;
    while i <= MaxKeys
      invariant 1 <= i <= MaxKeys + 1
      invariant apiKeys == Names(SetIndices(env, i - 1))
    {
      ghost var prev := SetIndices(env, i - 1);
      var keyVar := KeyName(i);
      var key := env(keyVar);
      if TruthyText(key) {
        assert (prev + [i])[..|prev|] == prev;
        apiKeys := apiKeys + [keyVar];
      } else {
        assert prev + [] == prev;
      }
      i := i + 1;
    }
  }

  /** Every loaded name is that of a variable among the first `n` with a non-empty value,
      and there are at most `n` of them. */
  lemma LoadedKeysAreSet(env: string -> Option<string>, n: nat)
    ensures |Names(SetIndices(env, n))| <= n
    ensures forall k :: 0 <= k < |Names(SetIndices(env, n))| ==>
      exists i :: 1 <= i <= n && Names(SetIndices(env, n))[k] == KeyName(i) && TruthyText(env(KeyName(i)))
  {
    var idx := SetIndices(env, n);
    SetIndicesSpec(env, n);
    NamesAt(idx);
    forall k | 0 <= k < |idx|
      ensures exists i :: 1 <= i <= n && Names(idx)[k] == KeyName(i) && TruthyText(env(KeyName(i)))
    {
      assert Names(idx)[k] == KeyName(idx[k]);
    }
  }

  /** No name is loaded twice. */
  lemma LoadedKeysDistinct(env: string -> Option<string>, n: nat)
    ensures forall k, l :: 0 <= k < l < |Names(SetIndices(env, n))| ==>
      Names(SetIndices(env, n))[k] != Names(SetIndices(env, n))[l]
  {
    var idx := SetIndices(env, n);
    SetIndicesSpec(env, n);
    NamesAt(idx);
    forall k, l | 0 <= k < l < |idx|
      ensures Names(idx)[k] != Names(idx)[l]
    {
      if Names(idx)[k] == Names(idx)[l] {
        KeyNameInjective(idx[k], idx[l]);
      }
    }
  }

  /** Every variable among the first `n` with a non-empty value is loaded. */
  lemma LoadedKeysComplete(env: string -> Option<string>, n: nat, i: nat)
    requires 1 <= i <= n && TruthyText(env(KeyName(i)))
    ensures KeyName(i) in Names(SetIndices(env, n))
  {
    var idx := SetIndices(env, n);
    SetIndicesSpec(env, n);
    NamesAt(idx);
    var k :| 0 <= k < |idx| && idx[k] == i;
    assert Names(idx)[k] == KeyName(i);
  }

  // ---------------------------------------------------------------------------
  // fetchTimeSettingPostCount
  // ---------------------------------------------------------------------------

  /** The reply of `GET /api/get-time`: the request threw, or a body whose `success` has
      this truthiness and whose `data` is missing, or present with a missing (`None`) or
      given `post_count`. */
  datatype GetTimeReply = GetTimeThrew | GetTimeBody(success: bool, data: Option<Option<int>>)

  /** `fetchTimeSettingPostCount`: the stored post count when there is one, 10 otherwise;
      `??` keeps an explicit 0. */
  function FetchTimeSettingPostCount(reply: GetTimeReply): (r: int)
    ensures reply.GetTimeBody? && reply.success && reply.data.Some? && reply.data.value.Some?
      ==> r == reply.data.value.value
    ensures !(reply.GetTimeBody? && reply.success && reply.data.Some? && reply.data.value.Some?)
      ==> r == FallbackPostCount
  {
    match reply
    case GetTimeThrew => FallbackPostCount
    case GetTimeBody(success, data) =>
      if !success then FallbackPostCount
      else match data
        case None => FallbackPostCount
        case Some(timeData) =>
          match timeData
          case None => FallbackPostCount
          case Some(postCount) => postCount
  }

  // ---------------------------------------------------------------------------
  // isAllAccountsReachedGoal
  // ---------------------------------------------------------------------------

  /** The reply of `GET /api/daily-records/fetch`, each record seen through its
      `post_count`: the request threw, or a body with `success` and a possibly missing list. */
  datatype RecordsReply = RecordsThrew | RecordsBody(success: bool, records: Option<seq<int>>)

  /** `counts.every(c => c >= goal)`. */
  function Every(counts: seq<int>, goal: int): bool {
    if counts == [] then true else Every(counts[..|counts| - 1], goal) && counts[|counts| - 1] >= goal
  }

  lemma {:induction false} EveryMeans(counts: seq<int>, goal: int)
    ensures Every(counts, goal) <==> forall k :: 0 <= k < |counts| ==> counts[k] >= goal
  {
    if counts != [] {
      var init := counts[..|counts| - 1];
      EveryMeans(init, goal);
      assert forall k :: 0 <= k < |init| ==> init[k] == counts[k];
    }
  }

  /** `isAllAccountsReachedGoal`. */
  function IsAllAccountsReachedGoal(reply: RecordsReply, goal: int): bool {
    match reply
    case RecordsThrew => false
    case RecordsBody(success, records) =>
      if !success then false
      else match records
        case None => false
        case Some(rs) => if |rs| == 0 then false else Every(rs, goal)
  }

  /** False when the request fails or there are no records, otherwise whether every record
      has reached the goal. */
  lemma GoalCheckMeans(reply: RecordsReply, goal: int)
    ensures IsAllAccountsReachedGoal(reply, goal) <==>
      (reply.RecordsBody? && reply.success && reply.records.Some? && |reply.records.value| > 0
       && forall k :: 0 <= k < |reply.records.value| ==> reply.records.value[k] >= goal)
  {
    if reply.RecordsBody? && reply.records.Some? {
      EveryMeans(reply.records.value, goal);
    }
  }

  // ---------------------------------------------------------------------------
  // main
  // ---------------------------------------------------------------------------

  /** The goal check made just before handing over key `k` (call number `2k` of the run). */
  predicate MetBefore(replies: nat -> RecordsReply, goal: int, k: nat) {
    IsAllAccountsReachedGoal(replies(2 * k), goal)
  }

  /** The goal check made just after key `k` (call number `2k+1`). */
  predicate MetAfter(replies: nat -> RecordsReply, goal: int, k: nat) {
    IsAllAccountsReachedGoal(replies(2 * k + 1), goal)
  }

  /** The keys handed to the worker from position `i` on: stop before a key when the goal is
      already met, and right after it once it is met. */
  function KeyRun(keys: seq<string>, replies: nat -> RecordsReply, goal: int, i: nat): seq<string>
    decreases |keys| - i
  {
    if i >= |keys| || MetBefore(replies, goal, i) then []
    else [keys[i]] + (if MetAfter(replies, goal, i) then [] else KeyRun(keys, replies, goal, i + 1))
  }

  /** The keys used from position `i` are the next keys of the list, in order. */
  lemma {:induction false} KeyRunIsSlice(keys: seq<string>, replies: nat -> RecordsReply, goal: int, i: nat)
    requires i <= |keys|
    ensures i + |KeyRun(keys, replies, goal, i)| <= |keys|
    ensures KeyRun(keys, replies, goal, i) == keys[i .. i + |KeyRun(keys, replies, goal, i)|]
    decreases |keys| - i
  {
    if i < |keys| && !MetBefore(replies, goal, i) && !MetAfter(replies, goal, i) {
      KeyRunIsSlice(keys, replies, goal, i + 1);
    }
  }

  /** Every key used from position `i` had an unmet check before it, and every one but the
      last an unmet check after it. */
  lemma {:induction false} KeyRunUnmet(keys: seq<string>, replies: nat -> RecordsReply, goal: int, i: nat)
    requires i <= |keys|
    ensures var n := i + |KeyRun(keys, replies, goal, i)|;
      && (forall k :: i <= k < n ==> !MetBefore(replies, goal, k))
      && (forall k :: i <= k < n - 1 ==> !MetAfter(replies, goal, k))
    decreases |keys| - i
  {
    if i < |keys| && !MetBefore(replies, goal, i) && !MetAfter(replies, goal, i) {
      KeyRunUnmet(keys, replies, goal, i + 1);
      var rest := KeyRun(keys, replies, goal, i + 1);
      assert KeyRun(keys, replies, goal, i) == [keys[i]] + rest;
    }
  }

  /** A run that leaves keys unused ended on a met check: the one before the first unused
      key, or the one after the last used key. */
  lemma {:induction false} KeyRunEnd(keys: seq<string>, replies: nat -> RecordsReply, goal: int, i: nat)
    requires i <= |keys|
    ensures var n := i + |KeyRun(keys, replies, goal, i)|;
      n < |keys| ==> MetBefore(replies, goal, n) || (n > i && MetAfter(replies, goal, n - 1))
    decreases |keys| - i
  {
    if i < |keys| && !MetBefore(replies, goal, i) {
      if MetAfter(replies, goal, i) {
        assert KeyRun(keys, replies, goal, i) == [keys[i]];
      } else {
        KeyRunEnd(keys, replies, goal, i + 1);
        var rest := KeyRun(keys, replies, goal, i + 1);
        assert KeyRun(keys, replies, goal, i) == [keys[i]] + rest;
        assert i + |KeyRun(keys, replies, goal, i)| == (i + 1) + |rest|;
      }
    }
  }

  /** How `main` ends: `process.exit(1)`, or after the key loop, with the keys handed to the
      worker in order and whether `automation.py` was requested. */
  datatype DriverExit = ExitFailure | Done(usedKeys: seq<string>, automationRequested: bool)

  /** Step (E) of `main`: the keys in load order, each handed to the worker at most once,
      with a goal check before and after each. */
  method RunKeys(apiKeys: seq<string>, replies: nat -> RecordsReply, goal: int) returns (used: seq<string>)
    ensures used == KeyRun(apiKeys, replies, goal, 0)
  {
    used := [];
    var i := 0;
    while i < |apiKeys|
      invariant i <= |apiKeys|
      invariant used == apiKeys[..i]
      invariant KeyRun(apiKeys, replies, goal, 0) == used + KeyRun(apiKeys, replies, goal, i)
    {
      if MetBefore(replies, goal, i) {
        break;
      }
      used := used + [apiKeys[i]];
      if MetAfter(replies, goal, i) {
        break;
      }
      ghost var rest := KeyRun(apiKeys, replies, goal, i + 1);
      assert KeyRun(apiKeys, replies, goal, i) == [apiKeys[i]] + rest;
      assert apiKeys[..i] + ([apiKeys[i]] + rest) == used + rest;
      assert apiKeys[..i + 1] == used;
      i := i + 1;
    }
  }

  /** `main`. The `i`-th goal check sees `replies(i)`; whether each worklist fetch gives a
      truthy list and whether `daily-records/init` succeeds are inputs. A failing worker
      call is caught and the loop goes on, so its outcome does not matter here. */
  method RunMain(timeReply: GetTimeReply, env: string -> Option<string>, worklistFetched: bool,
                 initOk: bool, replies: nat -> RecordsReply, worklist2Fetched: bool)
    returns (exit: DriverExit)
    ensures var keys := Names(SetIndices(env, MaxKeys));
      exit == if keys == [] || !worklistFetched || !initOk then ExitFailure
              else Done(KeyRun(keys, replies, FetchTimeSettingPostCount(timeReply), 0), worklist2Fetched)
  {
    var goal := FetchTimeSettingPostCount(timeReply);
    var apiKeys := LoadGeminiApiKeys(env);
    if |apiKeys| == 0 {
      return ExitFailure;
    }
    if !worklistFetched {
      return ExitFailure;
    }
    if !initOk {
      return ExitFailure;
    }
    var used := RunKeys(apiKeys, replies, goal);
    exit := Done(used, worklist2Fetched);
  }
}
