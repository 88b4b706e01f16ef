/** The indexing-request planner of `automation.py`: it reads `username:url` lines, groups
    the URLs by account, cuts each account's URLs into batches of 50 and submits them one
    by one until the site reports its daily limit. The browser is replaced by oracles:
    whether a login succeeds, whether the site's domain link is found, and what each URL
    submission shows (an input error, an alert text or no alert). */
module Automation {
  import opened Util

  /** The alert text the site shows once an account has used up its daily requests. */
  const LimitMessage: string := "사이트별 일간 최대 요청 수를 초과하였습니다."
  const BatchSize: nat := 50
  const Scheme: string := "https://"

  // ---------------------------------------------------------------------------
  // extract_domain
  // ---------------------------------------------------------------------------

  /** `re.match(r'(https://[^/]+)', url)`: the scheme and everything up to the next `/`. */
  function ExtractDomain(url: string): (r: Option<string>)
    ensures r.Some? <==> |url| > 8 && url[..8] == Scheme && url[8] != '/'
    ensures r.Some? ==>
      && 8 < |r.value| <= |url| && r.value == url[..|r.value|]
      && '/' !in r.value[8..]
      && (|r.value| == |url| || url[|r.value|] == '/')
  {
    if |url| > 8 && url[..8] == Scheme && url[8] != '/' then
      match IndexOf(url[8..], '/')
      case None => Some(url)
      case Some(k) =>
        assert url[..8 + k][8..] == url[8..][..k];
        Some(url[..8 + k])
    else None
  }

  // ---------------------------------------------------------------------------
  // read_url_file
  // ---------------------------------------------------------------------------

  /** One line of the URL file: stripped, split at its first `:`, both halves stripped,
      kept only when neither half is empty. */
  function ParseUrlLine(line: string): (r: Option<(string, string)>)
    ensures r.Some? ==>
      && r.value.0 != "" && r.value.1 != "" && ':' !in r.value.0
      && PyStrip(r.value.0) == r.value.0 && PyStrip(r.value.1) == r.value.1
  {
    var t := PyStrip(line);
    match IndexOf(t, ':')
    case None => None
    case Some(k) =>
      var user := PyStrip(t[..k]);
      var url := PyStrip(t[k + 1..]);
      TrimIdempotent(t[..k], IsPySpace);
      TrimIdempotent(t[k + 1..], IsPySpace);
      TrimSliceHasNo(t[..k], ':', IsPySpace);
      if user != "" && url != "" then Some((user, url)) else None
  }

  lemma TrimSliceHasNo(s: string, c: char, ws: char -> bool)
    requires c !in s
    ensures c !in Trim(s, ws)
  {
    var r := Trim(s, ws);
    var i := TrimStart(s, ws);
    forall k | 0 <= k < |r| ensures r[k] != c {
      assert r[k] == s[i + k];
    }
  }

  /** A line `user:url` whose user part has no colon and whose two ends are not whitespace
      is read as exactly `(user, url)`: the split is at the FIRST colon, so the URL keeps
      any colons of its own (a port, say). */
  lemma ParseSplitsAtFirstColon(user: string, url: string)
    requires user != "" && url != "" && ':' !in user
    requires !IsPySpace(user[0]) && !IsPySpace(user[|user| - 1])
    requires !IsPySpace(url[0]) && !IsPySpace(url[|url| - 1])
    ensures ParseUrlLine(user + ":" + url) == Some((user, url))
  {
    StrippedParts(user, url);
    ParseStrippedJoin(user, url);
  }

  lemma StrippedParts(user: string, url: string)
    requires user != "" && url != ""
    requires !IsPySpace(user[0]) && !IsPySpace(user[|user| - 1])
    requires !IsPySpace(url[0]) && !IsPySpace(url[|url| - 1])
    ensures PyStrip(user + ":" + url) == user + ":" + url
    ensures PyStrip(user) == user && PyStrip(url) == url
  {
    StrippedJoin(user, url);
    TrimKeeps(user, IsPySpace);
    TrimKeeps(url, IsPySpace);
  }

  lemma StrippedJoin(user: string, url: string)
    requires user != "" && url != ""
    requires !IsPySpace(user[0]) && !IsPySpace(url[|url| - 1])
    ensures PyStrip(user + ":" + url) == user + ":" + url
  {
    var line := user + ":" + url;
    assert line[0] == user[0] && line[|line| - 1] == url[|url| - 1];
    TrimKeeps(line, IsPySpace);
  }

  lemma ParseStrippedJoin(user: string, url: string)
    requires user != "" && url != "" && ':' !in user
    requires PyStrip(user + ":" + url) == user + ":" + url
    requires PyStrip(user) == user && PyStrip(url) == url
    ensures ParseUrlLine(user + ":" + url) == Some((user, url))
  {
    var line := user + ":" + url;
    FirstColon(user, url);
    assert line[..|user|] == user && line[|user| + 1..] == url;
  }

  lemma FirstColon(user: string, url: string)
    requires ':' !in user
    ensures IndexOf(user + ":" + url, ':') == Some(|user|)
  {
    var line := user + ":" + url;
    assert line[..|user|] == user;
    IndexOfFirst(line, ':', |user|);
  }

  /** A line without a colon is skipped. */
  lemma ParseNeedsColon(line: string)
    requires ':' !in line
    ensures ParseUrlLine(line) == None
  {
    TrimSliceHasNo(line, ':', IsPySpace);
  }

  /** The pairs of all readable lines, in file order. */
  function ParsedLines(lines: seq<string>): seq<(string, string)> {
    FilterMap(lines, ParseUrlLine)
  }

  /** Reading is line by line: the pairs of two files one after the other are the pairs
      of each, in order; no line gives more than one pair, and every pair is read from
      one line. */
  lemma ParsedLinesSpec(a: seq<string>, b: seq<string>)
    ensures ParsedLines(a + b) == ParsedLines(a) + ParsedLines(b)
    ensures |ParsedLines(a)| <= |a|
    ensures forall p :: p in ParsedLines(a) ==> exists i :: 0 <= i < |a| && ParseUrlLine(a[i]) == Some(p)
  {
    FilterMapAppend(a, b, ParseUrlLine);
    FilterMapFrom(a, ParseUrlLine);
  }

  /** `read_url_file` after the file is read into lines. */
  method ReadUrlFile(lines: seq<string>) returns (urlData: seq<(string, string)>)
    ensures urlData == ParsedLines(lines)
  {
    urlData := [];
    var i := 0;
    while i < |lines|
      invariant 0 <= i <= |lines|
      invariant urlData == ParsedLines(lines[..i])
    {
      assert lines[..i + 1][..i] == lines[..i];
      match ParseUrlLine(lines[i]) {
        case None =>
        case Some(pair) => urlData := urlData + [pair];
      }
      i := i + 1;
    }
    assert lines[..i] == lines;
  }

  // ---------------------------------------------------------------------------
  // prepare_set_data
  // ---------------------------------------------------------------------------

  /** One account of the worklist file; a missing key reads as `None`. */
  datatype WorkRecord = WorkRecord(username: Option<string>, naverId: Option<string>, naverPassword: Option<string>)

  /** One "set": an account with its search-console credentials and the URLs to submit. */
  datatype AccountSet = AccountSet(username: string, naverId: Option<string>, naverPassword: Option<string>, links: seq<string>)

  /** The distinct non-empty usernames of a worklist, in order of first appearance. */
  function Usernames(w: seq<WorkRecord>): seq<string> {
    if w == [] then []
    else
      var prev := Usernames(w[..|w| - 1]);
      var u := w[|w| - 1].username;
      if TruthyText(u) && u.value !in prev then prev + [u.value] else prev
  }

  /** The index of the first record of `w` carrying username `u`. */
  function FirstIndex(w: seq<WorkRecord>, u: string): (r: Option<nat>)
    ensures r.Some? ==> r.value < |w| && w[r.value].username == Some(u)
  {
    if w == [] then None
    else match FirstIndex(w[..|w| - 1], u)
      case Some(k) => Some(k)
      case None => if w[|w| - 1].username == Some(u) then Some(|w| - 1) else None
  }

  /** The URLs given for `u`, in input order. */
  function LinksOf(entries: seq<(string, string)>, u: string): seq<string> {
    if entries == [] then []
    else
      var last := entries[|entries| - 1];
      LinksOf(entries[..|entries| - 1], u) + (if last.0 == u then [last.1] else [])
  }

  /** The set built for username `u`: the first record's credentials and all of `u`'s URLs. */
  function SetOf(w: seq<WorkRecord>, entries: seq<(string, string)>, u: string): AccountSet
    requires FirstIndex(w, u).Some?
  {
    var rec := w[FirstIndex(w, u).value];
    AccountSet(u, rec.naverId, rec.naverPassword, LinksOf(entries, u))
  }

  /** The sets of the users in `order` that have at least one URL. */
  function SetsWithLinks(w: seq<WorkRecord>, entries: seq<(string, string)>, order: seq<string>): seq<AccountSet>
    requires forall u :: u in order ==> FirstIndex(w, u).Some?
  {
    if order == [] then []
    else
      var prev := SetsWithLinks(w, entries, order[..|order| - 1]);
      var u := order[|order| - 1];
      if LinksOf(entries, u) != [] then prev + [SetOf(w, entries, u)] else prev
  }

  lemma {:induction false} UsernamesHaveRecords(w: seq<WorkRecord>)
    ensures forall u :: u in Usernames(w) ==> FirstIndex(w, u).Some? && u != ""
  {
    if w != [] {
      UsernamesHaveRecords(w[..|w| - 1]);
    }
  }

  /** Everything `prepare_set_data` returns, as a function of its inputs. */
  function PreparedSets(w: seq<WorkRecord>, entries: seq<(string, string)>): seq<AccountSet> {
    UsernamesHaveRecords(w);
    SetsWithLinks(w, entries, Usernames(w))
  }

  /** A worklist username is listed once, however often it repeats. */
  lemma {:induction false} UsernamesDistinct(w: seq<WorkRecord>)
    ensures forall i, j :: 0 <= i < j < |Usernames(w)| ==> Usernames(w)[i] != Usernames(w)[j]
  {
    if w != [] {
      UsernamesDistinct(w[..|w| - 1]);
    }
  }

  /** The usernames are exactly the non-empty usernames of the records. */
  lemma {:induction false} UsernamesComplete(w: seq<WorkRecord>, i: nat)
    requires i < |w| && TruthyText(w[i].username)
    ensures w[i].username.value in Usernames(w)
  {
    if i < |w| - 1 {
      UsernamesComplete(w[..|w| - 1], i);
    }
  }

  /** For a repeated username the FIRST record's credentials win. */
  lemma {:induction false} FirstIndexIsFirst(w: seq<WorkRecord>, u: string, i: nat)
    requires i < |w| && w[i].username == Some(u)
    ensures FirstIndex(w, u).Some? && FirstIndex(w, u).value <= i
  {
    if i < |w| - 1 {
      FirstIndexIsFirst(w[..|w| - 1], u, i);
    }
  }

  /** A non-empty username that has a record is listed. */
  lemma FirstIndexListed(w: seq<WorkRecord>, u: string)
    requires u != "" && FirstIndex(w, u).Some?
    ensures u in Usernames(w)
  {
    UsernamesComplete(w, FirstIndex(w, u).value);
  }

  /** Each URL goes to its own user's links, in input order; URLs of users that have no
      set are not in any set. */
  lemma {:induction false} LinksOfAppend(a: seq<(string, string)>, b: seq<(string, string)>, u: string)
    ensures LinksOf(a + b, u) == LinksOf(a, u) + LinksOf(b, u)
    decreases |b|
  {
    if b == [] {
      assert a + b == a;
    } else {
      assert (a + b)[..|a + b| - 1] == a + b[..|b| - 1];
      LinksOfAppend(a, b[..|b| - 1], u);
    }
  }

  /** The sets are those users of `order` with a URL, in the order of `order`; each carries
      all of that user's URLs and the first record's credentials. */
  lemma {:induction false} SetsWithLinksSpec(w: seq<WorkRecord>, entries: seq<(string, string)>, order: seq<string>)
    requires forall u :: u in order ==> FirstIndex(w, u).Some?
    ensures forall s :: s in SetsWithLinks(w, entries, order) ==>
      && s.username in order && s.links != [] && s.links == LinksOf(entries, s.username)
      && s == SetOf(w, entries, s.username)
    ensures forall u :: u in order && LinksOf(entries, u) != [] ==>
      exists s :: s in SetsWithLinks(w, entries, order) && s.username == u
  {
    if order != [] {
      SetsWithLinksSpec(w, entries, order[..|order| - 1]);
      var u := order[|order| - 1];
      if LinksOf(entries, u) != [] {
        var last := SetOf(w, entries, u);
        assert last in SetsWithLinks(w, entries, order);
      }
    }
  }

  /** The dictionary after the first loop of `prepare_set_data` over `w`: one entry per
      non-empty username, made from the first record that carries it, with no links yet. */
  function UserDict(w: seq<WorkRecord>): map<string, AccountSet> {
    if w == [] then map[]
    else
      var d := UserDict(w[..|w| - 1]);
      var rec := w[|w| - 1];
      if TruthyText(rec.username) && rec.username.value !in d
      then d[rec.username.value := AccountSet(rec.username.value, rec.naverId, rec.naverPassword, [])]
      else d
  }

  /** The dictionary after the second loop: every URL appended to its user's entry, if any. */
  function Attach(d: map<string, AccountSet>, entries: seq<(string, string)>): map<string, AccountSet> {
    if entries == [] then d
    else
      var d' := Attach(d, entries[..|entries| - 1]);
      var (u, url) := entries[|entries| - 1];
      if u in d' then d'[u := d'[u].(links := d'[u].links + [url])] else d'
  }

  /** The list after the third loop: the entries of `keys` that have links, in key order. */
  function Kept(d: map<string, AccountSet>, keys: seq<string>): seq<AccountSet>
    requires forall u :: u in keys ==> u in d
  {
    if keys == [] then []
    else
      var prev := Kept(d, keys[..|keys| - 1]);
      var info := d[keys[|keys| - 1]];
      if info.links != [] then prev + [info] else prev
  }

  /** The first loop keys the dictionary by exactly the listed usernames, each with the
      credentials of its first record. */
  lemma {:induction false} UserDictSpec(w: seq<WorkRecord>)
    ensures forall u :: u in UserDict(w) <==> u in Usernames(w)
    ensures forall u :: u in UserDict(w) ==>
      && FirstIndex(w, u).Some?
      && UserDict(w)[u] == AccountSet(u, w[FirstIndex(w, u).value].naverId, w[FirstIndex(w, u).value].naverPassword, [])
  {
    if w != [] {
      var w' := w[..|w| - 1];
      UserDictSpec(w');
      UsernamesHaveRecords(w');
      forall u | u in UserDict(w') ensures FirstIndex(w, u) == FirstIndex(w', u) {
      }
      var rec := w[|w| - 1];
      if TruthyText(rec.username) && rec.username.value !in UserDict(w') {
        var v := rec.username.value;
        if FirstIndex(w', v).Some? {
          FirstIndexListed(w', v);
        }
        assert FirstIndex(w, v) == Some(|w| - 1);
      }
    }
  }

  /** The second loop adds to each user's entry exactly that user's URLs, in input order,
      and adds no user. */
  lemma {:induction false} AttachSpec(d: map<string, AccountSet>, entries: seq<(string, string)>)
    ensures forall u :: u in Attach(d, entries) <==> u in d
    ensures forall u :: u in d ==> Attach(d, entries)[u] == d[u].(links := d[u].links + LinksOf(entries, u))
  {
    if entries != [] {
      AttachSpec(d, entries[..|entries| - 1]);
    }
  }

  /** The third loop keeps the same sets as the declarative description. */
  lemma {:induction false} KeptSets(w: seq<WorkRecord>, entries: seq<(string, string)>, keys: seq<string>)
    requires forall u :: u in keys ==> u in Usernames(w)
    ensures forall u :: u in keys ==> u in Attach(UserDict(w), entries) && FirstIndex(w, u).Some?
    ensures Kept(Attach(UserDict(w), entries), keys) == SetsWithLinks(w, entries, keys)
  {
    UsernamesHaveRecords(w);
    UserDictSpec(w);
    AttachSpec(UserDict(w), entries);
    if keys != [] {
      var d := Attach(UserDict(w), entries);
      var u := keys[|keys| - 1];
      KeptSets(w, entries, keys[..|keys| - 1]);
      assert [] + LinksOf(entries, u) == LinksOf(entries, u);
      assert d[u] == SetOf(w, entries, u);
    }
  }

  /** `prepare_set_data`: fills a dictionary (which keeps insertion order) from the
      worklist, appends every URL to its user's list, and keeps the users with a URL. */
  method PrepareSetData(worklist: seq<WorkRecord>, urlEntries: seq<(string, string)>) returns (result: seq<AccountSet>)
    ensures result == PreparedSets(worklist, urlEntries)
  {
    var userDict: map<string, AccountSet> := map[];
    var keys: seq<string> := [];
    var i := 0;
    while i < |worklist|
      invariant 0 <= i <= |worklist|
      invariant keys == Usernames(worklist[..i])
      invariant userDict == UserDict(worklist[..i])
    {
      assert worklist[..i + 1][..i] == worklist[..i];
      UserDictSpec(worklist[..i]);
      var record := worklist[i];
      var username := record.username;
      if TruthyText(username) && username.value !in userDict {
        userDict := userDict[username.value := AccountSet(username.value, record.naverId, record.naverPassword, [])];
        keys := keys + [username.value];
      }
      i := i + 1;
    }
    assert worklist[..i] == worklist;

    var j := 0;
    while j < |urlEntries|
      invariant 0 <= j <= |urlEntries|
      invariant userDict == Attach(UserDict(worklist), urlEntries[..j])
    {
      assert urlEntries[..j + 1][..j] == urlEntries[..j];
      var (username, url) := urlEntries[j];
      if username in userDict {
        var info := userDict[username];
        userDict := userDict[username := info.(links := info.links + [url])];
      }
      j := j + 1;
    }
    assert urlEntries[..j] == urlEntries;

    KeptSets(worklist, urlEntries, keys);
    result := [];
    var k := 0;
    while k < |keys|
      invariant 0 <= k <= |keys|
      invariant result == Kept(userDict, keys[..k])
    {
      assert keys[..k + 1][..k] == keys[..k];
      var info := userDict[keys[k]];
      if info.links != [] {
        result := result + [info];
      }
      k := k + 1;
    }
    assert keys[..k] == keys;
  }

  // ---------------------------------------------------------------------------
  // handle_alert and start_automation
  // ---------------------------------------------------------------------------

  datatype AlertResult = Exceed | Handled | NoAlert

  /** What the alert wait of one submission meets: no alert within the wait, an alert
      whose text was read and which was accepted, or an alert whose handling raised (reading
      its text or `accept()` failed). */
  datatype AlertSeen = NoAlertShown | AlertShown(text: string) | AlertFailed

  /** `handle_alert`: every exception, whether no alert appeared or handling a present
      alert raised, gives "none"; so a limit alert whose `accept()` raises is reported as
      "none". */
  function HandleAlert(alert: AlertSeen): (r: AlertResult)
    ensures r == Exceed <==> alert.AlertShown? && Contains(alert.text, LimitMessage)
    ensures r == NoAlert <==> alert.NoAlertShown? || alert.AlertFailed?
  {
    match alert
    case AlertShown(t) => if Contains(t, LimitMessage) then Exceed else Handled
    case _ => NoAlert
  }

  /** What submitting one URL shows: the input field never appeared (the error is logged
      and the URL skipped), or the submission was made and the alert wait saw this. */
  datatype UrlStep = InputMissing | Submitted(alert: AlertSeen)

  /** The `urls` argument: a bare string, a list, or anything else. */
  datatype UrlsArg = OneUrl(url: string) | UrlList(urls: seq<string>) | NotAList

  datatype RunResult = Ok | Exceeded

  /** The URLs `start_automation` walks: a bare string becomes a one-element list. */
  function AsList(arg: UrlsArg): seq<string> {
    match arg
    case OneUrl(u) => [u]
    case UrlList(us) => us
    case NotAList => []
  }

  /** The run over `urls[i..]`: its result and the URLs whose `py_mark` is posted as "O". */
  function AutomationRun(urls: seq<string>, step: nat -> UrlStep, i: nat): (RunResult, seq<string>)
    decreases |urls| - i
  {
    if i >= |urls| then (Ok, [])
    else match step(i)
      case InputMissing => AutomationRun(urls, step, i + 1)
      case Submitted(a) =>
        if HandleAlert(a) == Exceed then (Exceeded, [])
        else
          var rest := AutomationRun(urls, step, i + 1);
          (rest.0, [urls[i]] + rest.1)
  }

  /** The first position at or after `i` whose submission reports the daily limit. */
  function FirstExceed(urls: seq<string>, step: nat -> UrlStep, i: nat): (r: Option<nat>)
    ensures r.Some? ==> i <= r.value < |urls| && step(r.value).Submitted? && HandleAlert(step(r.value).alert) == Exceed
    decreases |urls| - i
  {
    if i >= |urls| then None
    else if step(i).Submitted? && HandleAlert(step(i).alert) == Exceed then Some(i)
    else FirstExceed(urls, step, i + 1)
  }

  /** The URLs in `urls[i..end]` that were submitted without a limit alert, in order. */
  function MarkedIn(urls: seq<string>, step: nat -> UrlStep, i: nat, end: nat): seq<string>
    requires end <= |urls|
    decreases end - i
  {
    if i >= end then []
    else (if step(i).Submitted? then [urls[i]] else []) + MarkedIn(urls, step, i + 1, end)
  }

  /** The run ends with "exceed" exactly when some submission shows the limit alert; it
      posts "O" for the submitted URLs before that one and for none from it on; a URL whose
      input failed gets no mark. */
  lemma {:induction false} AutomationRunSpec(urls: seq<string>, step: nat -> UrlStep, i: nat)
    requires i <= |urls|
    ensures var fe := FirstExceed(urls, step, i);
      && (AutomationRun(urls, step, i).0 == Exceeded <==> fe.Some?)
      && AutomationRun(urls, step, i).1 == MarkedIn(urls, step, i, if fe.Some? then fe.value else |urls|)
    decreases |urls| - i
  {
    if i < |urls| {
      AutomationRunSpec(urls, step, i + 1);
    }
  }

  /** `start_automation`: walks the URLs in order and returns at once on "exceed". */
  method StartAutomation(urls: UrlsArg, step: nat -> UrlStep) returns (result: RunResult, marked: seq<string>)
    ensures (result, marked) == AutomationRun(AsList(urls), step, 0)
  {
    var list: seq<string>;
    match urls {
      case OneUrl(u) => list := [u];
      case UrlList(us) => list := us;
      case NotAList => return Ok, [];
    }
    assert list == AsList(urls);
    marked := [];
    var index := 0;
    while index < |list|
      invariant 0 <= index <= |list|
      invariant AutomationRun(list, step, 0).0 == AutomationRun(list, step, index).0
      invariant AutomationRun(list, step, 0).1 == marked + AutomationRun(list, step, index).1
    {
      var url := list[index];
      match step(index) {
        case InputMissing =>
        case Submitted(alert) =>
          var alertResult := HandleAlert(alert);
          if alertResult == Exceed {
            assert AutomationRun(list, step, index) == (Exceeded, []);
            assert marked + [] == marked;
            return Exceeded, marked;
          }
          assert AutomationRun(list, step, index).1 == [url] + AutomationRun(list, step, index + 1).1;
          marked := marked + [url];
      }
      index := index + 1;
    }
    assert AutomationRun(list, step, index) == (Ok, []);
    assert marked + [] == marked;
    result := Ok;
  }

  // ---------------------------------------------------------------------------
  // process_all_sets
  // ---------------------------------------------------------------------------

  /** What the run leaves behind, in order: a `py_mark` post for a URL, the end of one
      batch's `start_automation` with its result, or the `TimeoutException` of a wait in
      batch `batchNum` of set `setNum`, which nothing catches: the script dies there. */
  datatype Event =
    | Mark(url: string)
    | BatchDone(setNum: nat, batchNum: nat, result: RunResult)
    | Aborted(setNum: nat, batchNum: nat)

  /** What the waits before a batch's `start_automation` give: the domain's link and both
      menu items were found and clicked; no link text holds the domain
      (`find_and_click_a_tag` returns False); or one of the three `WebDriverWait`s (the link
      list, "요청", "웹 페이지 수집") timed out. */
  datatype Click = Clicked | NotFound | WaitTimedOut

  /** Whether a run's events end with an uncaught time-out. */
  predicate Aborts(ev: seq<Event>) {
    ev != [] && ev[|ev| - 1].Aborted?
  }

  /** `login_with_set`: empty credentials fail before the browser is touched. */
  predicate Login(s: AccountSet, browserOk: bool) {
    TruthyText(s.naverId) && TruthyText(s.naverPassword) && browserOk
  }

  function Marks(urls: seq<string>): seq<Event> {
    if urls == [] then [] else [Mark(urls[0])] + Marks(urls[1..])
  }

  /** The batches of one set's URLs are the consecutive chunks of 50: there are
      `ceil(len(urls) / 50)` of them, each holds 1 to 50 URLs, and in order they give back
      every URL exactly once. */
  lemma BatchesPartition(urls: seq<string>)
    ensures |Chunks(urls, BatchSize)| == CeilDiv(|urls|, BatchSize)
    ensures forall b :: 0 <= b < |Chunks(urls, BatchSize)| ==> 0 < |Chunks(urls, BatchSize)[b]| <= BatchSize
    ensures Flatten(Chunks(urls, BatchSize)) == urls
  {
    ChunksCount(urls, BatchSize);
    ChunksFlatten(urls, BatchSize);
    forall b | 0 <= b < |Chunks(urls, BatchSize)| ensures 0 < |Chunks(urls, BatchSize)[b]| <= BatchSize {
      ChunkSizes(urls, BatchSize, b);
    }
  }

  /** What batch `b` of set `setNum` leaves behind, and whether it stops the batch loop
      ("exceed", or a time-out that ends the whole script). The batch runs only when its
      first URL gives a domain and that domain's link was clicked. */
  function BatchStep(setNum: nat, b: nat, batch: seq<string>,
                     clicked: (nat, nat) -> Click, step: (nat, nat) -> nat -> UrlStep): (seq<Event>, bool)
  {
    if batch != [] && ExtractDomain(batch[0]).Some? then
      match clicked(setNum, b)
      case Clicked =>
        var run := AutomationRun(batch, step(setNum, b), 0);
        (Marks(run.1) + [BatchDone(setNum, b, run.0)], run.0 == Exceeded)
      case NotFound => ([], false)
      case WaitTimedOut => ([Aborted(setNum, b)], true)
    else ([], false)
  }

  /** The outcome of every batch of set `setNum`, in batch order. */
  function Outcomes(setNum: nat, batches: seq<seq<string>>,
                    clicked: (nat, nat) -> Click, step: (nat, nat) -> nat -> UrlStep): (r: seq<(seq<Event>, bool)>)
    ensures |r| == |batches|
  {
    if batches == [] then []
    else
      var last := |batches| - 1;
      Outcomes(setNum, batches[..last], clicked, step) + [BatchStep(setNum, last, batches[last], clicked, step)]
  }

  lemma OutcomeAt(setNum: nat, batches: seq<seq<string>>, k: nat,
                  clicked: (nat, nat) -> Click, step: (nat, nat) -> nat -> UrlStep)
    requires k < |batches|
    ensures Outcomes(setNum, batches, clicked, step)[k] == BatchStep(setNum, k, batches[k], clicked, step)
  {
    if k < |batches| - 1 {
      var init := batches[..|batches| - 1];
      OutcomeAt(setNum, init, k, clicked, step);
      assert init[k] == batches[k];
    }
  }

  /** The events of the batches from `b` on, given each batch's events and whether it
      stops the loop. */
  function RunFrom(outs: seq<(seq<Event>, bool)>, b: nat): seq<Event>
    decreases |outs| - b
  {
    if b >= |outs| then []
    else outs[b].0 + (if outs[b].1 then [] else RunFrom(outs, b + 1))
  }

  /** The same run seen from the loop: the events of the first `n` batches and whether one
      of them already stopped it (after which no batch adds anything). */
  function RunPrefix(outs: seq<(seq<Event>, bool)>, n: nat): (seq<Event>, bool)
    requires n <= |outs|
  {
    if n == 0 then ([], false)
    else
      var p := RunPrefix(outs, n - 1);
      if p.1 then p else (p.0 + outs[n - 1].0, outs[n - 1].1)
  }

  /** Running the batches one by one from the front and stopping at the first batch that
      stops gives the events of the whole run. */
  lemma {:induction false} PrefixThenRun(outs: seq<(seq<Event>, bool)>, n: nat)
    requires n <= |outs|
    ensures var p := RunPrefix(outs, n);
      if p.1 then p.0 == RunFrom(outs, 0) else p.0 + RunFrom(outs, n) == RunFrom(outs, 0)
  {
    var all := RunFrom(outs, 0);
    if n == 0 {
      assert [] + all == all;
    } else {
      PrefixThenRun(outs, n - 1);
      var p' := RunPrefix(outs, n - 1);
      if !p'.1 {
        var st := outs[n - 1];
        var rest := RunFrom(outs, n);
        assert RunFrom(outs, n - 1) == st.0 + (if st.1 then [] else rest);
        if st.1 {
          assert st.0 + [] == st.0;
        } else {
          assert p'.0 + st.0 + rest == p'.0 + (st.0 + rest);
        }
      }
    }
  }

  /** The events of one set. */
  function SetRun(setNum: nat, s: AccountSet, browserOk: bool,
                  clicked: (nat, nat) -> Click, step: (nat, nat) -> nat -> UrlStep): seq<Event>
  {
    if !Login(s, browserOk) || s.links == [] then []
    else RunFrom(Outcomes(setNum, Chunks(s.links, BatchSize), clicked, step), 0)
  }

  lemma AbortsAppend(a: seq<Event>, b: seq<Event>)
    ensures Aborts(a + b) == if b == [] then Aborts(a) else Aborts(b)
  {
    if b == [] {
      assert a + b == a;
    } else {
      assert (a + b)[|a + b| - 1] == b[|b| - 1];
    }
  }

  /** The events of the sets `sets[..n]`, each set on its own. */
  function SetRuns(sets: seq<AccountSet>, n: nat, loginOk: nat -> bool,
                   clicked: (nat, nat) -> Click, step: (nat, nat) -> nat -> UrlStep): (r: seq<seq<Event>>)
    requires n <= |sets|
    ensures |r| == n
  {
    if n == 0 then []
    else SetRuns(sets, n - 1, loginOk, clicked, step) + [SetRun(n - 1, sets[n - 1], loginOk(n - 1), clicked, step)]
  }

  /** Runs one after the other, up to and including the first one that ends with a
      time-out. */
  function UntilTimeout(runs: seq<seq<Event>>): seq<Event> {
    if runs == [] then []
    else
      var before := UntilTimeout(runs[..|runs| - 1]);
      if Aborts(before) then before else before + runs[|runs| - 1]
  }

  /** The events of sets `sets[..n]`, one set after the other, until a time-out kills the
      script. */
  function AllSetsRun(sets: seq<AccountSet>, n: nat, loginOk: nat -> bool,
                      clicked: (nat, nat) -> Click, step: (nat, nat) -> nat -> UrlStep): seq<Event>
    requires n <= |sets|
  {
    UntilTimeout(SetRuns(sets, n, loginOk, clicked, step))
  }

  lemma UntilTimeoutStep(runs: seq<seq<Event>>, run: seq<Event>)
    ensures var before := UntilTimeout(runs);
      UntilTimeout(runs + [run]) == if Aborts(before) then before else before + run
  {
    assert (runs + [run])[..|runs|] == runs;
  }

  lemma {:induction false} SetRunsAt(sets: seq<AccountSet>, n: nat, loginOk: nat -> bool,
                                     clicked: (nat, nat) -> Click, step: (nat, nat) -> nat -> UrlStep, i: nat)
    requires i < n <= |sets|
    ensures SetRuns(sets, n, loginOk, clicked, step)[i] == SetRun(i, sets[i], loginOk(i), clicked, step)
  {
    if i < n - 1 {
      SetRunsAt(sets, n - 1, loginOk, clicked, step, i);
    }
  }

  /** A run whose only time-out, if any, is its last event. */
  predicate TimeoutLast(ev: seq<Event>) {
    forall p :: 0 <= p < |ev| && ev[p].Aborted? ==> p == |ev| - 1
  }

  lemma {:induction false} UntilTimeoutLast(runs: seq<seq<Event>>)
    requires forall i :: 0 <= i < |runs| ==> TimeoutLast(runs[i])
    ensures TimeoutLast(UntilTimeout(runs))
  {
    if runs != [] {
      var init := runs[..|runs| - 1];
      var run := runs[|runs| - 1];
      UntilTimeoutLast(init);
      var before := UntilTimeout(init);
      if !Aborts(before) {
        var all := before + run;
        forall p | 0 <= p < |all| && all[p].Aborted?
          ensures p == |all| - 1
        {
          if p >= |before| {
            assert run[p - |before|] == all[p];
          }
        }
      }
    }
  }

  lemma {:induction false} MarksAppend(a: seq<string>, b: seq<string>)
    ensures Marks(a + b) == Marks(a) + Marks(b)
  {
    if a == [] {
      assert a + b == b;
    } else {
      assert (a + b)[0] == a[0];
      assert (a + b)[1..] == a[1..] + b;
      MarksAppend(a[1..], b);
    }
  }

  /** Every event of the run from batch `b` on is an event of some batch `k >= b`; when
      batch `k` stops the loop, its events are the last ones of the run. */
  lemma {:induction false} RunFromOrigin(outs: seq<(seq<Event>, bool)>, b: nat, p: nat) returns (k: nat, q: nat)
    requires p < |RunFrom(outs, b)|
    ensures b <= k < |outs| && q < |outs[k].0| && RunFrom(outs, b)[p] == outs[k].0[q]
    ensures outs[k].1 ==> p + |outs[k].0| - q == |RunFrom(outs, b)|
    decreases |outs| - b
  {
    var st := outs[b];
    var rest := if st.1 then [] else RunFrom(outs, b + 1);
    assert RunFrom(outs, b) == st.0 + rest;
    if p < |st.0| {
      k, q := b, p;
    } else {
      k, q := RunFromOrigin(outs, b + 1, p - |st.0|);
    }
  }

  /** A batch leaves its marks first and then one `BatchDone` for itself, whose result is
      "exceed" exactly when the batch stops the set; or it leaves only its time-out, which
      stops it. */
  lemma BatchStepShape(setNum: nat, b: nat, batch: seq<string>,
                       clicked: (nat, nat) -> Click, step: (nat, nat) -> nat -> UrlStep, q: nat)
    requires q < |BatchStep(setNum, b, batch, clicked, step).0|
    requires !BatchStep(setNum, b, batch, clicked, step).0[q].Mark?
    ensures var st := BatchStep(setNum, b, batch, clicked, step);
      && q == |st.0| - 1 && st.0[q].setNum == setNum && st.0[q].batchNum == b
      && (st.0[q].BatchDone? ==> (st.0[q].result == Exceeded <==> st.1))
      && (st.0[q].Aborted? ==> st.1 && q == 0)
  {
    if clicked(setNum, b).Clicked? {
      var run := AutomationRun(batch, step(setNum, b), 0);
      MarksLength(run.1);
      if q < |run.1| {
        MarksAreMarks(run.1, q);
      }
    }
  }

  /** Once a batch of a set reports "exceed" or times out, that is the set's last event:
      no later batch of the set runs. Every batch event belongs to this set and a batch at
      or after `b`. */
  lemma ExceedEndsBatches(setNum: nat, batches: seq<seq<string>>, b: nat,
                          clicked: (nat, nat) -> Click, step: (nat, nat) -> nat -> UrlStep)
    ensures var ev := RunFrom(Outcomes(setNum, batches, clicked, step), b);
      forall p :: 0 <= p < |ev| && !ev[p].Mark? ==>
        && ev[p].setNum == setNum && b <= ev[p].batchNum < |batches|
        && (ev[p].Aborted? || ev[p].result == Exceeded ==> p == |ev| - 1)
  {
    var outs := Outcomes(setNum, batches, clicked, step);
    var ev := RunFrom(outs, b);
    forall p | 0 <= p < |ev| && !ev[p].Mark?
      ensures ev[p].setNum == setNum && b <= ev[p].batchNum < |batches|
      ensures ev[p].Aborted? || ev[p].result == Exceeded ==> p == |ev| - 1
    {
      var k, q := RunFromOrigin(outs, b, p);
      OutcomeAt(setNum, batches, k, clicked, step);
      BatchStepShape(setNum, k, batches[k], clicked, step, q);
    }
  }

  lemma {:induction false} MarksAreMarks(urls: seq<string>, p: nat)
    requires p < |Marks(urls)|
    ensures |Marks(urls)| == |urls| && Marks(urls)[p] == Mark(urls[p])
  {
    if p > 0 {
      MarksAreMarks(urls[1..], p - 1);
    } else {
      MarksLength(urls);
    }
  }

  lemma {:induction false} MarksLength(urls: seq<string>)
    ensures |Marks(urls)| == |urls|
  {
    if urls != [] {
      MarksLength(urls[1..]);
    }
  }

  /** A set whose login fails, or that has no URL, leaves no event at all. */
  lemma SkippedSet(setNum: nat, s: AccountSet, browserOk: bool,
                   clicked: (nat, nat) -> Click, step: (nat, nat) -> nat -> UrlStep)
    requires !TruthyText(s.naverId) || !TruthyText(s.naverPassword) || !browserOk || s.links == []
    ensures SetRun(setNum, s, browserOk, clicked, step) == []
  {
  }

  /** One set's "exceed" does not stop the run: unless a time-out killed the script, the
      events of `n + 1` sets are those of the first `n` followed by the events of set `n`. */
  lemma NextSetStillRuns(sets: seq<AccountSet>, n: nat, loginOk: nat -> bool,
                         clicked: (nat, nat) -> Click, step: (nat, nat) -> nat -> UrlStep)
    requires n < |sets|
    requires !Aborts(AllSetsRun(sets, n, loginOk, clicked, step))
    ensures AllSetsRun(sets, n + 1, loginOk, clicked, step)
      == AllSetsRun(sets, n, loginOk, clicked, step) + SetRun(n, sets[n], loginOk(n), clicked, step)
  {
    UntilTimeoutStep(SetRuns(sets, n, loginOk, clicked, step), SetRun(n, sets[n], loginOk(n), clicked, step));
  }

  /** A time-out ends the whole run: once the first `n` sets end with one, no later set
      adds an event. */
  lemma {:induction false} TimeoutEndsRun(sets: seq<AccountSet>, n: nat, m: nat, loginOk: nat -> bool,
                                          clicked: (nat, nat) -> Click, step: (nat, nat) -> nat -> UrlStep)
    requires n <= m <= |sets|
    requires Aborts(AllSetsRun(sets, n, loginOk, clicked, step))
    ensures AllSetsRun(sets, m, loginOk, clicked, step) == AllSetsRun(sets, n, loginOk, clicked, step)
    decreases m
  {
    if m > n {
      TimeoutEndsRun(sets, n, m - 1, loginOk, clicked, step);
      UntilTimeoutStep(SetRuns(sets, m - 1, loginOk, clicked, step), SetRun(m - 1, sets[m - 1], loginOk(m - 1), clicked, step));
    }
  }

  /** Within one set, a time-out is the set's last event. */
  lemma SetTimeoutIsLast(setNum: nat, s: AccountSet, browserOk: bool,
                         clicked: (nat, nat) -> Click, step: (nat, nat) -> nat -> UrlStep, p: nat)
    requires p < |SetRun(setNum, s, browserOk, clicked, step)|
    requires SetRun(setNum, s, browserOk, clicked, step)[p].Aborted?
    ensures p == |SetRun(setNum, s, browserOk, clicked, step)| - 1
  {
    var batches := Chunks(s.links, BatchSize);
    var ev := RunFrom(Outcomes(setNum, batches, clicked, step), 0);
    assert SetRun(setNum, s, browserOk, clicked, step) == ev;
    var outs := Outcomes(setNum, batches, clicked, step);
    var k, q := RunFromOrigin(outs, 0, p);
    OutcomeAt(setNum, batches, k, clicked, step);
    BatchStepShape(setNum, k, batches[k], clicked, step, q);
  }

  /** A time-out is the last event of the whole run, whichever set it happens in. */
  lemma TimeoutIsLast(sets: seq<AccountSet>, n: nat, loginOk: nat -> bool,
                      clicked: (nat, nat) -> Click, step: (nat, nat) -> nat -> UrlStep)
    requires n <= |sets|
    ensures TimeoutLast(AllSetsRun(sets, n, loginOk, clicked, step))
  {
    var runs := SetRuns(sets, n, loginOk, clicked, step);
    forall i | 0 <= i < |runs|
      ensures TimeoutLast(runs[i])
    {
      SetRunsAt(sets, n, loginOk, clicked, step, i);
      forall p | 0 <= p < |runs[i]| && runs[i][p].Aborted?
        ensures p == |runs[i]| - 1
      {
        SetTimeoutIsLast(i, sets[i], loginOk(i), clicked, step, p);
      }
    }
    UntilTimeoutLast(runs);
  }

  /** One pass of the batch loop: cut `urls[batch_num * 50 : (batch_num + 1) * 50]`, find
      the domain of its first URL, click that domain's link and the menu, and run
      `start_automation` on the batch; the events it leaves, whether it hit the limit, and
      whether a wait timed out (the exception that leaves the loop). */
  method RunBatch(setNum: nat, urls: seq<string>, batchNum: nat,
                  clicked: (nat, nat) -> Click, step: (nat, nat) -> nat -> UrlStep)
    returns (batchEvents: seq<Event>, exceeded: bool, timedOut: bool)
    requires batchNum < CeilDiv(|urls|, BatchSize)
    ensures |Chunks(urls, BatchSize)| == CeilDiv(|urls|, BatchSize)
    ensures (batchEvents, exceeded || timedOut) == Outcomes(setNum, Chunks(urls, BatchSize), clicked, step)[batchNum]
    ensures timedOut <==> Aborts(batchEvents)
  {
    ChunksCount(urls, BatchSize);
    ChunkAt(urls, BatchSize, batchNum);
    OutcomeAt(setNum, Chunks(urls, BatchSize), batchNum, clicked, step);
    var batchUrls := urls[batchNum * BatchSize .. Min((batchNum + 1) * BatchSize, |urls|)];
    batchEvents, exceeded, timedOut := [], false, false;
    if batchUrls != [] {
      var inputDomain := ExtractDomain(batchUrls[0]);
      if inputDomain.Some? {
        match clicked(setNum, batchNum) {
          case Clicked =>
            var result, marked := StartAutomation(UrlList(batchUrls), step(setNum, batchNum));
            batchEvents := Marks(marked) + [BatchDone(setNum, batchNum, result)];
            exceeded := result == Exceeded;
          case NotFound =>
          case WaitTimedOut =>
            batchEvents, timedOut := [Aborted(setNum, batchNum)], true;
        }
      }
    }
  }

  /** The batch loop of `process_all_sets` for one logged-in set with URLs: batch `b` is
      `urls[b*50 : (b+1)*50]`, "exceed" breaks the loop, and a time-out leaves it by the
      exception. */
  method RunBatches(setNum: nat, urls: seq<string>,
                    clicked: (nat, nat) -> Click, step: (nat, nat) -> nat -> UrlStep)
    returns (events: seq<Event>, timedOut: bool)
    ensures events == RunFrom(Outcomes(setNum, Chunks(urls, BatchSize), clicked, step), 0)
    ensures timedOut <==> Aborts(events)
  {
    var numBatches := CeilDiv(|urls|, BatchSize);
    ghost var outs := Outcomes(setNum, Chunks(urls, BatchSize), clicked, step);
    ChunksCount(urls, BatchSize);
    events, timedOut := [], false;
    var exceedFlag := false;
    var batchNum := 0;
    while batchNum < numBatches
      invariant batchNum <= numBatches == |outs|
      invariant RunPrefix(outs, batchNum) == (events, false) && !exceedFlag
      invariant !Aborts(events)
    {
      if exceedFlag {
        break;
      }
      var batchEvents, exceeded, batchTimedOut := RunBatch(setNum, urls, batchNum, clicked, step);
      AbortsAppend(events, batchEvents);
      events := events + batchEvents;
      if batchTimedOut {
        PrefixThenRun(outs, batchNum + 1);
        return events, true;
      }
      if exceeded {
        exceedFlag := true;
        break;
      }
      batchNum := batchNum + 1;
    }
    PrefixThenRun(outs, if exceedFlag then batchNum + 1 else batchNum);
    assert events + [] == events;
  }

  /** One set: log in, and run the batches when there are URLs. */
  method ProcessSet(setNum: nat, s: AccountSet, browserOk: bool,
                    clicked: (nat, nat) -> Click, step: (nat, nat) -> nat -> UrlStep)
    returns (events: seq<Event>, timedOut: bool)
    ensures events == SetRun(setNum, s, browserOk, clicked, step)
    ensures timedOut <==> Aborts(events)
  {
    if !Login(s, browserOk) {
      return [], false;
    }
    var urls := s.links;
    var totalUrls := |urls|;
    if totalUrls == 0 {
      return [], false;
    }
    events, timedOut := RunBatches(setNum, urls, clicked, step);
  }

  /** `process_all_sets`: every set in order, each with its own browser, until a wait
      times out: the `TimeoutException` reaches `main`, which does not catch it, and no
      later set runs. */
  method ProcessAllSets(sets: seq<AccountSet>, loginOk: nat -> bool,
                        clicked: (nat, nat) -> Click, step: (nat, nat) -> nat -> UrlStep) returns (events: seq<Event>)
    ensures events == AllSetsRun(sets, |sets|, loginOk, clicked, step)
  {
    events := [];
    var setNum := 0;
    while setNum < |sets|
      invariant 0 <= setNum <= |sets|
      invariant events == AllSetsRun(sets, setNum, loginOk, clicked, step)
      invariant !Aborts(events)
    {
      var setEvents, timedOut := ProcessSet(setNum, sets[setNum], loginOk(setNum), clicked, step);
      NextSetStillRuns(sets, setNum, loginOk, clicked, step);
      AbortsAppend(events, setEvents);
      events := events + setEvents;
      setNum := setNum + 1;
      if timedOut {
        TimeoutEndsRun(sets, setNum, |sets|, loginOk, clicked, step);
        return;
      }
    }
  }
}
