# A Dafny model of the write_py_auto publishing back office

`write_py_auto` is a Next.js back office around a blog-publishing worker. The worker posts
generated articles to WordPress accounts and asks Naver's search console to index them. This
project models the data handling around that worker in Dafny and proves what it promises:

- **The indexing-request planner** (`automation.py`, module `Automation`):
  - it parses `username:url` lines;
  - it merges them with the account list into per-account sets;
  - it cuts each set's URLs into batches of 50 and submits them one by one;
  - it stops an account's remaining batches once the site reports its daily limit;
  - a page wait that times out ends the whole run.
- **The run driver** (`run_automate.js`, module `RunAutomate`): it loads the configured
  Gemini key names, reads the day's goal, and hands the keys to the worker in order until
  every account has reached the goal.
- **The title/content splitter** of `gemini.js` (module `Gemini`), around the first `제목:`
  line of the generated text.
- **The daily progress table** (module `DailyRecords`): a class whose methods are the
  `daily-records/update` batch upsert (one transaction) and the `daily-records/init` zero-row
  loop (no transaction).
- **The import and rewrite routes**:
  - keyword insertion in batches of 500 with `INSERT IGNORE` (`KeywordsSave`, a class over
    the table);
  - prompt dedup against the stored prompts (`PromptSave`);
  - worklist tuples and `ON DUPLICATE KEY UPDATE` (`WorklistSave`);
  - the regular-expression rewrite of the prompt template in `gemini.js` (`UpdatePrompt`).
- **The list logic of the admin pages**:
  - the index check that marks posts `O` or `X` (`IndexCheck`);
  - grouping by origin, the count of `O` marks, the sort cycle, the filters and pages of
    the naver-check page (`NaverCheck`);
  - the checkbox selection shared by four pages (`Selection`);
  - the completed page's header box and date format (`CompletedPage`);
  - the spreadsheet uploads, guards and pages of the WordPress, prompt and keyword pages
    (`WordpressPage`, `PromptStatusPage`, `KeywordPage`).

`Util` holds the shared values and helpers:

- `Option` and the spreadsheet/JSON cell;
- JavaScript and Python whitespace, with `trim()` and `strip()`;
- chunking and page slices;
- decimal strings.

The browser, HTTP, the database's failures, the clock, environment variables, the
spreadsheet decoder and the URL parser are parameters of the functions and methods that use
them. A search, a login or a request outcome is a function from the call (or its position
in the run) to what it gives back.

Where a source file updates state step by step, the model is imperative and is proved
against a specification function:

- the loops of `automation.py` and `run_automate.js`;
- the two daily-records routes and the keyword batches;
- the page handlers that fill a dictionary, an array or a copied `Set`.

Pure expressions (`gemini.js`, the prompt and worklist routes, the comparators, the
filters, the page slices) are functions with lemmas.

## Model

| member | source | states |
|---|---|---|
| Automation.ExtractDomain | src/app/scripts/automation.py:137-139 | a domain is found exactly when the URL starts with `https://` followed by a character other than `/`; it is the longest prefix of the URL with no `/` after the scheme, ending at the URL's end or just before a `/` |
| Automation.ParseUrlLine | src/app/scripts/automation.py:373-386 | a line kept as a pair has a non-empty user without `:` and a non-empty URL, both already stripped |
| Automation.ParseSplitsAtFirstColon | src/app/scripts/automation.py:379-386 | `user:url` with a colon-free user reads back as exactly `(user, url)`, so a URL keeps colons of its own |
| Automation.ParseNeedsColon | src/app/scripts/automation.py:377-379 | a line without `:` is skipped |
| Automation.ParsedLinesSpec | src/app/scripts/automation.py:372-389 | the pairs of two files in a row are the pairs of each in order; at most one pair per line; every pair comes from one line |
| Automation.ReadUrlFile | src/app/scripts/automation.py:372-389 | the line loop returns the pairs of the readable lines in file order |
| Automation.FirstIndex | src/app/scripts/automation.py:393-403 | the index found holds a record with that username |
| Automation.UsernamesHaveRecords | src/app/scripts/automation.py:393-396 | every listed username is non-empty and has a record |
| Automation.UsernamesDistinct | src/app/scripts/automation.py:397 | a username repeated in the worklist is listed once |
| Automation.UsernamesComplete | src/app/scripts/automation.py:393-403 | every record with a non-empty username has its username listed |
| Automation.FirstIndexIsFirst | src/app/scripts/automation.py:397-403 | for a repeated username the record used is the first one carrying it |
| Automation.FirstIndexListed | src/app/scripts/automation.py:393-403 | a non-empty username with a record is listed |
| Automation.LinksOfAppend | src/app/scripts/automation.py:405-407 | a user's URLs from two lists in a row are that user's URLs of each, in input order |
| Automation.SetsWithLinksSpec | src/app/scripts/automation.py:411 | every set returned has a listed user, at least one URL, exactly that user's URLs and the first record's credentials; every listed user with a URL has a set |
| Automation.UserDictSpec | src/app/scripts/automation.py:393-403 | the first loop's dictionary is keyed by exactly the listed usernames, each with its first record's credentials and no links |
| Automation.AttachSpec | src/app/scripts/automation.py:405-409 | the second loop adds no user and appends to each user exactly that user's URLs in input order; URLs of unknown users are dropped |
| Automation.KeptSets | src/app/scripts/automation.py:411 | keeping the dictionary's users with links, in insertion order, gives the declarative list of sets |
| Automation.PrepareSetData | src/app/scripts/automation.py:391-413 | the three loops return the sets of the users with a URL, in order of first appearance in the worklist |
| Automation.HandleAlert | src/app/scripts/automation.py:101-131 | "exceed" exactly when an alert was read and its text contains the daily-limit message; "none" exactly when no alert appeared or handling it raised (reading its text or `accept()`, which the catch-all `except` at lines 128-131 turns into "none", so a limit alert whose `accept()` fails is marked "O"); "handled" otherwise |
| Automation.FirstExceed | src/app/scripts/automation.py:229-232 | the position found is a submitted URL whose alert is "exceed" |
| Automation.AutomationRunSpec | src/app/scripts/automation.py:204-264 | the run returns "exceed" exactly when some submission reports the limit; it marks "O" the submitted URLs before that one, in order, and none from it on; a URL whose input failed gets no mark |
| Automation.StartAutomation | src/app/scripts/automation.py:197-264 | a bare string becomes a one-element list, anything else returns "ok" with no mark; the loop's result and marks are those of the run |
| Automation.BatchesPartition | src/app/scripts/automation.py:302-310 | a set's URLs make ceil(n/50) batches of 1 to 50 URLs whose concatenation is the original list |
| Automation.OutcomeAt | src/app/scripts/automation.py:306-323 | the outcome recorded for batch `k` is the outcome of running batch `k` |
| Automation.PrefixThenRun | src/app/scripts/automation.py:306-323 | running the batches from the front and stopping at the first batch that stops the loop ("exceed" or a wait time-out) gives the events of the whole run |
| Automation.RunFromOrigin | src/app/scripts/automation.py:306-323 | each event of the run comes from one batch at or after the first, and a batch that stops the loop leaves the run's last events |
| Automation.BatchStepShape | src/app/scripts/automation.py:313-323 | a batch leaves its marks first and then one end event naming its set and batch, whose result is "exceed" exactly when the batch stops the set; a batch whose link or menu wait times out leaves only that time-out, and stops |
| Automation.ExceedEndsBatches | src/app/scripts/automation.py:306-323 | once a batch of a set reports "exceed" or times out, it is the set's last event; every batch event belongs to the set and a batch at or after the first |
| Automation.MarksLength | src/app/scripts/automation.py:233-245 | one mark event per marked URL |
| Automation.MarksAreMarks | src/app/scripts/automation.py:233-245 | the mark events name the marked URLs in order |
| Automation.MarksAppend | src/app/scripts/automation.py:233-245 | the marks of two URL lists in a row are the marks of each |
| Automation.SkippedSet | src/app/scripts/automation.py:283-300 | a set with empty credentials, a failed login or no URL leaves no event (the login check is at lines 48-54) |
| Automation.NextSetStillRuns | src/app/scripts/automation.py:276-330 | one set's "exceed" does not stop the next set: unless a time-out has ended the run, the events of `n + 1` sets are those of `n` sets followed by set `n`'s |
| Automation.TimeoutEndsRun | src/app/scripts/automation.py:143-180 | a `TimeoutException` of the link wait (line 143) or the menu waits (lines 171 and 178) is caught neither by their `except NoSuchElementException` nor by `process_all_sets` or `main` (line 447): once the run ends with one, no later set adds an event |
| Automation.SetTimeoutIsLast | src/app/scripts/automation.py:306-323 | within one set, a time-out is the set's last event |
| Automation.TimeoutIsLast | src/app/scripts/automation.py:276-330 | a time-out is the last event of the whole run, whichever set it happens in |
| Automation.RunBatch | src/app/scripts/automation.py:310-323 | the slice `urls[b*50 : (b+1)*50]` is batch `b`; its events, and whether it hit the limit or timed out, are that batch's outcome, and it timed out exactly when its events end with the time-out |
| Automation.RunBatches | src/app/scripts/automation.py:302-323 | the batch loop leaves the events of the run that stops at the first "exceed" (the `break`) or time-out (the exception), and reports a time-out exactly when its events end with one |
| Automation.ProcessSet | src/app/scripts/automation.py:283-323 | one set's events: none after a failed login or with no URL, otherwise its batch run, with a time-out reported exactly when the events end with one |
| Automation.ProcessAllSets | src/app/scripts/automation.py:270-330 | the sets run in order, each set's events following the previous set's, until a set ends with a wait time-out: that exception leaves the loop and no later set runs |
| RunAutomate.KeyNameInjective | src/app/scripts/run_automate.js:14 | two indices with the same variable name are the same index |
| RunAutomate.NamesAt | src/app/scripts/run_automate.js:14-17 | one name per index, each the variable name of its index |
| RunAutomate.SetIndicesSpec | src/app/scripts/run_automate.js:13-19 | the indices kept lie in `1..n`, are strictly increasing, have a non-empty value, and every index with a non-empty value is kept |
| RunAutomate.LoadGeminiApiKeys | src/app/scripts/run_automate.js:11-21 | the loop over `1..62` returns the names of the variables with a non-empty value, in index order |
| RunAutomate.LoadedKeysAreSet | src/app/scripts/run_automate.js:11-21 | at most `n` names, each the name (not the value) of a variable among the first `n` whose value is non-empty |
| RunAutomate.LoadedKeysDistinct | src/app/scripts/run_automate.js:11-21 | no name is loaded twice |
| RunAutomate.LoadedKeysComplete | src/app/scripts/run_automate.js:11-21 | every variable among the first `n` with a non-empty value is loaded |
| RunAutomate.FetchTimeSettingPostCount | src/app/scripts/run_automate.js:28-55 | the stored `post_count` when the reply succeeds and carries one (an explicit 0 kept); 10 on a failed reply, a thrown request, or missing data or count |
| RunAutomate.EveryMeans | src/app/scripts/run_automate.js:82 | `every` holds exactly when every count reaches the goal |
| RunAutomate.GoalCheckMeans | src/app/scripts/run_automate.js:61-87 | the goal is reached exactly when the reply succeeds with a non-empty record list whose every count reaches the goal; false on a failed or thrown request |
| RunAutomate.KeyRunIsSlice | src/app/scripts/run_automate.js:232-254 | the keys used are the next keys of the load order, each once |
| RunAutomate.KeyRunUnmet | src/app/scripts/run_automate.js:233-250 | every key used had an unmet goal check before it, and every key but the last an unmet check after it |
| RunAutomate.KeyRunEnd | src/app/scripts/run_automate.js:233-250 | a run that leaves keys unused ended on a met check, before the first unused key or after the last used one |
| RunAutomate.RunKeys | src/app/scripts/run_automate.js:232-254 | the key loop hands over the keys of the run that stops before a key once the goal is met and right after a key once it is met; a failing worker call does not stop it |
| RunAutomate.RunMain | src/app/scripts/run_automate.js:190-301 | exit status 1 when no key loads, the worklist fetch fails or init fails; otherwise the keys of the run, and `automation.py` requested exactly when the second worklist fetch gives a list |
| Gemini.GroupStart | src/app/scripts/gemini.js:37 | `\s*` followed by `(.+)` finds a group start exactly when a character after the marker is not a line terminator; the start is such a character after whitespace only, and no longer run of whitespace would have left a start |
| Gemini.LineEnd | src/app/scripts/gemini.js:37 | `.+` runs to the next line terminator or the end of the text |
| Gemini.RestMatch | src/app/scripts/gemini.js:37 | the group lies after the marker and is not empty |
| Gemini.FirstMatch | src/app/scripts/gemini.js:37 | a match found starts at or after the start position, with its group after the marker |
| Gemini.FirstMatchSpec | src/app/scripts/gemini.js:37-38 | the match found is a match of `제목:\s*(.+)`, no match starts earlier, its group starts at the engine's choice and runs to the end of its line; when none is found there is no match at all |
| Gemini.NoMatchAt | src/app/scripts/gemini.js:37 | where the engine finds no match at a position, the expression has none there |
| Gemini.SplitTitleSpec | src/app/scripts/gemini.js:37-39 | with no match the title is `제목 없음` and the content the whole text trimmed; otherwise the title is the first match's group trimmed, within one line, and the content is the text with exactly that match cut out, trimmed |
| Gemini.LaterMarkersSurvive | src/app/scripts/gemini.js:39 | the replace is not global: a `제목:` after the first match is still in the content |
| Gemini.GenerateGeminiContent | src/app/scripts/gemini.js:10-46 | a missing or empty key throws before any call; a failing call gives `null`; otherwise the title and content of the split |
| DailyRecords.ApplyAllCounts | src/app/api/daily-records/update/route.js:56-96 | after a batch, the count of row (user, date) is the old count (0 without a row) plus the sum of the increments of the user's records read on that date, repeats adding up; the row exists exactly when it existed or some record goes to it. Each record takes the KST date read for it (line 65), so a batch across midnight splits over two dates |
| DailyRecords.ApplyAllKeepsOthers | src/app/api/daily-records/update/route.js:67-93 | rows that no record of the batch goes to, by its user and the date read for it, are untouched |
| DailyRecords.AcrossMidnight | src/app/api/daily-records/update/route.js:64-65 | two records of one user read on either side of KST midnight add to two different rows, each only its own `postCount` |
| DailyRecords.UpdateStatus | src/app/api/daily-records/update/route.js:33-114 | the status is 200, 400, 401 or 500; 401 exactly for a wrong `api_key`; 400 exactly for a right key with a non-array or empty `records`; 200 exactly when the key is right, the list is non-empty, every record has a username and a numeric `postCount`, and the database never fails; 500 otherwise |
| DailyRecords.DailyTable.Update | src/app/api/daily-records/update/route.js:27-129 | the status is the one above; on 200 the table is the batch applied in order, each record under the KST date read for it, and on any other status the table is unchanged (rejected before the transaction, or rolled back) |
| DailyRecords.InitAllSpec | src/app/api/daily-records/init/route.js:44-56 | after `init` every listed user has a row for today; an existing row keeps its count, a new one holds 0, and no other row appears |
| DailyRecords.InitIdempotent | src/app/api/daily-records/init/route.js:44-56 | running `init` twice with the same worklist inserts nothing the second time |
| DailyRecords.InitRepeatAddsNothing | src/app/api/daily-records/init/route.js:45-55 | a username repeated in the worklist yields a single row |
| DailyRecords.InitReach | src/app/api/daily-records/init/route.js:44-75 | the loop gets past exactly the accounts before the first one with a missing username or a database failure |
| DailyRecords.Handled | src/app/api/daily-records/init/route.js:44-56 | the usernames handled are those of the accounts the loop gets past, in order |
| DailyRecords.HandledIs | src/app/api/daily-records/init/route.js:44-56 | the handled list is the one list of that length the accounts carry |
| DailyRecords.DailyTable.Init | src/app/api/daily-records/init/route.js:33-76 | a worklist that is not a list gives 500 and no change; otherwise the rows of the handled accounts are added and stay even when the loop stops early (no transaction), with 200 only when every account was handled |
| KeywordsSave.Rows | src/app/api/keywords/save/route.js:20 | one `[item.keyword, item.first_keyword]` row per item, in input order |
| KeywordsSave.InsertIgnoreKeeps | src/app/api/keywords/save/route.js:21-23 | `INSERT IGNORE` never changes a stored row and only appends some of the values |
| KeywordsSave.InsertIgnoreStoresOrSkips | src/app/api/keywords/save/route.js:21-23 | no value fails the statement: each is stored, or its unique key is already taken |
| KeywordsSave.InsertIgnoreKeepsUnique | src/app/api/keywords/save/route.js:21-23 | the unique key stays unique |
| KeywordsSave.InsertIgnoreAppend | src/app/api/keywords/save/route.js:16-24 | two statements in a row insert what one statement with both value lists inserts |
| KeywordsSave.BatchesCoverInput | src/app/api/keywords/save/route.js:15-17 | ceil(n/500) batches of 1 to 500 items whose concatenation is the input |
| KeywordsSave.Reach | src/app/api/keywords/save/route.js:16-35 | the loop gets through exactly the batches before the first one holding a `null` element or failing in the database |
| KeywordsSave.BatchAt | src/app/api/keywords/save/route.js:16-17 | the slice the loop cuts at `i = 500 b` is batch `b` |
| KeywordsSave.BatchesEnd | src/app/api/keywords/save/route.js:16 | the loop condition fails right after the last batch |
| KeywordsSave.ReachStops | src/app/api/keywords/save/route.js:16-24 | before the reach, the loop stops at a batch exactly when it is the reach |
| KeywordsSave.InsertBatchesStep | src/app/api/keywords/save/route.js:16-24 | one more batch is one more statement |
| KeywordsSave.RowsAppend | src/app/api/keywords/save/route.js:20 | the rows of two item lists in a row are the rows of each |
| KeywordsSave.BatchingTransparent | src/app/api/keywords/save/route.js:15-24 | when every batch goes through, the table is what one `INSERT IGNORE` of all the values gives |
| KeywordsSave.SaveAllAtOnce | src/app/api/keywords/save/route.js:15-24 | with every element present and no database error, the loop reaches the end and stores what one statement over all rows stores |
| KeywordsSave.SaveStatus | src/app/api/keywords/save/route.js:5-35 | 500 exactly for a missing `keywords` (it throws at `.length`) or a batch that stops the loop; 400 exactly for a non-array or empty list; 200 exactly when every batch goes through |
| KeywordsSave.KeywordTable.Save | src/app/api/keywords/save/route.js:3-37 | the status is the one above; nothing is written unless the list is a non-empty array, and then the table holds every batch before the one that stopped the loop (no transaction) |
| PromptSave.NewPromptsAppend | src/app/api/prompt-status/save/route.js:25-27 | the filter keeps upload order: filtering two pieces in a row is filtering the whole |
| PromptSave.NewPromptsCounts | src/app/api/prompt-status/save/route.js:18-27 | a prompt is among the new ones exactly when it is not stored, and then as many times as it was uploaded (repeats in one upload are not collapsed) |
| PromptSave.AllStoredNothingNew | src/app/api/prompt-status/save/route.js:24-34 | an upload whose prompts are all stored has nothing new |
| PromptSave.SavedMessage | src/app/api/prompt-status/save/route.js:48 | the success message ends with the fixed Korean suffix |
| PromptSave.SavedMessageReportsCount | src/app/api/prompt-status/save/route.js:48 | the digits before the suffix read back as the number of new prompts |
| PromptSave.SavePrompts | src/app/api/prompt-status/save/route.js:3-57 | 400 exactly for a non-array or empty `items`; 500 exactly when an item is `null`, the `SELECT` fails, or the insert of a non-empty set of new prompts fails; `success` exactly when rows are inserted, and then they are the new prompts in upload order and the message counts them; 200 with `success: false` exactly when every prompt is already stored |
| PromptSave.SaveTwiceInsertsNothing | src/app/api/prompt-status/save/route.js:18-34 | sending an upload whose items all carry a prompt again after it was saved inserts nothing and answers 200 with `success: false` |
| WorklistSave.RowStorable | src/app/api/worklist/save/route.js:14-20 | no column of a tuple is `NULL`, `0` or `undefined`: each is truthy or `""` |
| WorklistSave.RowsOf | src/app/api/worklist/save/route.js:14-20 | one tuple per item, tuple `k` built from item `k` |
| WorklistSave.Usernames | src/app/api/worklist/save/route.js:23 | the usernames of the tuples are exactly their `username` columns |
| WorklistSave.UpsertKeys | src/app/api/worklist/save/route.js:22-30 | after `ON DUPLICATE KEY UPDATE` the table holds the old usernames and the uploaded ones, no other, and a username not uploaded keeps its row |
| WorklistSave.UpsertLastWins | src/app/api/worklist/save/route.js:25-29 | an uploaded username's row holds the four other columns of its last tuple: a later duplicate overwrites |
| WorklistSave.UpsertIdempotent | src/app/api/worklist/save/route.js:22-30 | sending the same rows twice leaves the table as sending them once |
| WorklistSave.SaveWorklist | src/app/api/worklist/save/route.js:3-48 | 400 exactly for a non-array or empty `items`; 500 exactly when an item is `null` or the statement fails; the table changes only on 200, and then every tuple is upserted |
| UpdatePrompt.TailMatch | src/app/api/scripts/updatePrompt/route.js:29 | the end of the part of the expression after the group, when the group ends at a given position, lies past the keyword line and the closer |
| UpdatePrompt.TailMatchSound | src/app/api/scripts/updatePrompt/route.js:29 | what it finds is the keyword line, whitespace only, then `` `; `` |
| UpdatePrompt.TailMatchUnique | src/app/api/scripts/updatePrompt/route.js:29 | it is the only such end: `` ` `` is not whitespace, so `\s*` cannot stop elsewhere |
| UpdatePrompt.LazyMatch | src/app/api/scripts/updatePrompt/route.js:29 | the lazy group `([\s\S]*?)` ends at a position where the rest matches |
| UpdatePrompt.LazyMatchFirst | src/app/api/scripts/updatePrompt/route.js:29 | no shorter group lets the rest match |
| UpdatePrompt.LazyMatchNone | src/app/api/scripts/updatePrompt/route.js:29 | when no end is found, no group length lets the rest match |
| UpdatePrompt.FindMatch | src/app/api/scripts/updatePrompt/route.js:29-31 | a match found starts with `` const prompt = ` `` at or after the start and ends where the rest of the expression ends |
| UpdatePrompt.NoMatchFrom | src/app/api/scripts/updatePrompt/route.js:29-31 | no match starts where the engine finds none |
| UpdatePrompt.FindMatchSpec | src/app/api/scripts/updatePrompt/route.js:29-31 | the match found is a match of the expression, none starts earlier and none from the same start has a shorter group; with no result the text has no match |
| UpdatePrompt.MatchFound | src/app/api/scripts/updatePrompt/route.js:31-37 | a text holding any match of the expression is found |
| UpdatePrompt.SubstituteNoDollar | src/app/api/scripts/updatePrompt/route.js:43 | a replacement string without `$` goes in unchanged |
| UpdatePrompt.SubstitutePlain | src/app/api/scripts/updatePrompt/route.js:43 | a character other than `$` is copied |
| UpdatePrompt.SubstituteDollarPair | src/app/api/scripts/updatePrompt/route.js:43 | `$$` in the replacement becomes one `$` |
| UpdatePrompt.SubstituteLoneDollar | src/app/api/scripts/updatePrompt/route.js:43 | a `$` before a character that starts no pattern is kept |
| UpdatePrompt.SubstituteAppend | src/app/api/scripts/updatePrompt/route.js:43 | a `$`-free start is copied and the rest substituted on its own |
| UpdatePrompt.SubstituteKeepsDollarBrace | src/app/api/scripts/updatePrompt/route.js:43 | `${` comes through unchanged |
| UpdatePrompt.TemplateEndKept | src/app/api/scripts/updatePrompt/route.js:40-43 | the blank line, `키워드: ${keyword}` and the closer come through `replace` unchanged |
| UpdatePrompt.Checked | src/app/api/scripts/updatePrompt/route.js:8-37 | 400 for a missing, empty or non-string prompt, 404 for a missing `gemini.js`, 400 for a file without a template; nothing is written then, and the route goes on exactly when none of these holds |
| UpdatePrompt.UpdatePromptAsWritten | src/app/api/scripts/updatePrompt/route.js:4-51 | a rejected request gets the status above and writes nothing; otherwise 200 and the file text with the first match replaced, the replacement string read with its `$` patterns |
| UpdatePrompt.UpdatePromptIntended | src/app/api/scripts/updatePrompt/route.js:4-51 | the same route with the new template put in literally |
| UpdatePrompt.TemplateEndShape | src/app/api/scripts/updatePrompt/route.js:40 | the new template ends with a blank line, the keyword line and the closer, in that order |
| UpdatePrompt.NewTemplateAt | src/app/api/scripts/updatePrompt/route.js:40 | a new template between any two texts is a match of the expression whose group is the trimmed prompt and a blank line |
| UpdatePrompt.NewTemplateMatches | src/app/api/scripts/updatePrompt/route.js:29-40 | the expression finds a match in any text holding a new template |
| UpdatePrompt.IntendedWritesPrompt | src/app/api/scripts/updatePrompt/route.js:29-46 | the literal replacement keeps the text before and after the match, puts the trimmed prompt right after `` const prompt = ` `` in a template of the form the expression looks for, so the file can be updated again |
| UpdatePrompt.TemplateKeptWithoutDollar | src/app/api/scripts/updatePrompt/route.js:40-43 | for a prompt without `$` the new template comes through `replace` unchanged |
| UpdatePrompt.AsWrittenAgreesWithoutDollar | src/app/api/scripts/updatePrompt/route.js:43 | for such a prompt the replacement as written equals the literal one |
| UpdatePrompt.RouteAgreesWithoutDollar | src/app/api/scripts/updatePrompt/route.js:4-51 | for such a prompt the route as written does what was intended, for every file |
| UpdatePrompt.DollarPairShortens | src/app/api/scripts/updatePrompt/route.js:43 | `$$` between a `$`-free start and text that comes through unchanged shortens the result by one |
| UpdatePrompt.TemplateLosesDollar | src/app/api/scripts/updatePrompt/route.js:40-43 | a template whose trimmed prompt is `$$` followed by `$`-free text loses one character |
| UpdatePrompt.DollarPairCollapses | src/app/api/scripts/updatePrompt/route.js:43 | for such a prompt the file text written is one character shorter than intended |
| UpdatePrompt.DollarPairExample | src/app/api/scripts/updatePrompt/route.js:40-46 | the prompt `$$` is written differently from what was intended, for every file with a template |
| IndexCheck.TagEnd | src/app/completed/page.jsx:65 | `/<[^>]+>/` matches at a `<` exactly up to the first `>` after it, when at least one character comes between |
| IndexCheck.StripTagsChars | src/app/completed/page.jsx:65 | removing tags adds no character |
| IndexCheck.NoTagAfterHead | src/app/completed/page.jsx:65 | a character put before a tagless text starts no tag after it |
| IndexCheck.NoTagAtHead | src/app/completed/page.jsx:65 | nor at itself unless it is `<` with a `>` later, not right after it |
| IndexCheck.StripTagsLeavesNoTag | src/app/completed/page.jsx:65 | the global replacement leaves no match of `/<[^>]+>/` |
| IndexCheck.StripTagsFixesTagless | src/app/completed/page.jsx:65 | a text without a match is left unchanged |
| IndexCheck.StripTagsIdempotent | src/app/completed/page.jsx:65 | removing tags twice is removing them once |
| IndexCheck.StripTagsPlain | src/app/completed/page.jsx:65 | a title without `<` is unchanged |
| IndexCheck.AnyIncludes | src/app/completed/page.jsx:63-67 | `some` is true exactly when a result title, tags removed, contains the post's title, false when none does, and throws exactly when it reaches a result without a title before a hit |
| IndexCheck.MarkFor | src/app/completed/page.jsx:49-69 | the mark is `O` or `X`, and `X` for a post without a title |
| IndexCheck.MarkForSpec | src/app/completed/page.jsx:49-69 | `O` only when the search answers with some result title that, tags removed, contains the post's title, and always then when every result has a title; `X` only when the post has no title or no result contains it |
| IndexCheck.Reach | src/app/completed/page.jsx:46-83 | the loop gets through exactly the posts before the first whose lookup throws |
| IndexCheck.Marks | src/app/completed/page.jsx:75-79 | the new list is the same posts in order, each with its new mark |
| IndexCheck.Posts | src/app/completed/page.jsx:50-72 | one `updateNaverMark(link, mark)` per post, in order |
| IndexCheck.MarkedStep | src/app/completed/page.jsx:47-76 | one more post checked is one more list entry and one more request |
| IndexCheck.CheckIndex | src/app/completed/page.jsx:35-87 | an empty list sends nothing; otherwise the requests of the posts before the first throwing lookup are sent, and the list is replaced by the marked list exactly when no lookup throws |
| NaverCheck.HandleSort | src/app/naver-check/page.jsx:136-147 | the new sort state is unsorted or sorts by the clicked column |
| NaverCheck.SortIndicator | src/app/naver-check/page.jsx:305-310 | an arrow shows exactly for the sorted column while a direction is set |
| NaverCheck.SortCycle | src/app/naver-check/page.jsx:136-147 | a click on the sorted column steps ascending, descending, unsorted; on another column or with no direction it starts ascending; three clicks show ▲, ▼, then nothing (the arrows are at lines 305-310) |
| NaverCheck.Find | src/app/naver-check/page.jsx:184 | the group found holds the origin, and none does when nothing is found |
| NaverCheck.AddPostSpec | src/app/naver-check/page.jsx:184-190 | one post adds its origin's group if missing and raises that group's count exactly when it is marked `O`, leaving other counts alone; origins stay distinct |
| NaverCheck.FindUnique | src/app/naver-check/page.jsx:184 | among distinct origins the group found is the one with the origin |
| NaverCheck.GroupByOrigin | src/app/naver-check/page.jsx:171-194 | the `forEach` filling `grouped` in place yields the grouping, groups in the order their origin first appears, posts whose link does not parse skipped |
| NaverCheck.GroupedSpec | src/app/naver-check/page.jsx:171-194 | one group per origin, exactly for the origins some parseable link has, each counting that origin's posts marked `O` (a group may count 0) |
| NaverCheck.SumOUpdate | src/app/naver-check/page.jsx:197-199 | changing one group's count changes the sum by the difference |
| NaverCheck.TotalOCount | src/app/naver-check/page.jsx:197-199 | `totalOCount` is the number of posts with a parseable link marked `O` |
| NaverCheck.StrLessIrreflexive | src/app/naver-check/page.jsx:210-211 | no origin string is less than itself |
| NaverCheck.StrLessTransitive | src/app/naver-check/page.jsx:210-211 | string `<` is transitive |
| NaverCheck.StrLessAsymmetric | src/app/naver-check/page.jsx:210-211 | no two strings are each less than the other |
| NaverCheck.StrLessTotal | src/app/naver-check/page.jsx:210-211 | two different strings are ordered one way or the other |
| NaverCheck.BeforeTotal | src/app/naver-check/page.jsx:207-220 | for an active sort, any two groups can be ordered by the comparator |
| NaverCheck.BeforeTransitive | src/app/naver-check/page.jsx:207-220 | the comparator's order is transitive, so `sort` has a consistent order |
| NaverCheck.Insert | src/app/naver-check/page.jsx:207 | inserting a group adds exactly it to the multiset of rows |
| NaverCheck.Sort | src/app/naver-check/page.jsx:207 | the sort is a permutation of the groups |
| NaverCheck.InsertSorted | src/app/naver-check/page.jsx:207 | inserting into a sorted list keeps it sorted |
| NaverCheck.SortSorted | src/app/naver-check/page.jsx:207-221 | the sort's result is ordered by the comparator |
| NaverCheck.SortedProcessed | src/app/naver-check/page.jsx:202-222 | with no key or no direction the groups are shown as grouped; otherwise they are a permutation of them ordered by the comparator |
| NaverCheck.SortedMeaning | src/app/naver-check/page.jsx:209-217 | ascending by count puts smaller counts first, descending larger first; ascending by origin puts no later origin first, descending no earlier one |
| NaverCheck.Pagination | src/app/naver-check/page.jsx:225-229 | a page shows at most 100 groups, group `k` of page `p` being group `(p-1)*100 + k`; there are ceil(n/100) pages, none empty (100 a page at line 40, the page buttons at line 426) |
| NaverCheck.FilterSpec | src/app/naver-check/page.jsx:85-98 | a filter keeps exactly the posts that pass, never adds any, and keeps all when all pass |
| NaverCheck.FilterAppend | src/app/naver-check/page.jsx:85-98 | filtering two pieces in a row is filtering the whole, so order is kept |
| NaverCheck.ApplyFiltersSpec | src/app/naver-check/page.jsx:80-105 | what remains is exactly the posts that pass every set day filter, a post without the date never passing it; no filter leaves the list as it is; the page goes back to 1 |
| Selection.Toggle | src/app/completed/page.jsx:107-113 | the copied set gains the id when it lacked it and loses it otherwise; no other id changes |
| Selection.ToggledFlipsOne | src/app/wordpress/page.jsx:194-201 | a click flips its own id's membership only, and the selection grows or shrinks by one |
| Selection.ToggledTwice | src/app/prompt-status/page.jsx:25-33 | two clicks on one box give the selection back |
| Selection.ToggledCommutes | src/app/keyword/page.jsx:96-104 | clicks on two boxes give the same selection in either order |
| Selection.DistinctIdsCount | src/app/keyword/page.jsx:106-113 | distinct ids fill a set of the list's size, which the header box compares with (at line 201) |
| Selection.Unselect | src/app/completed/page.jsx:196-203 | unchecking the header removes exactly the current page's ids from the selection |
| Selection.DeleteAfterSelectAll | src/app/keyword/page.jsx:79-83 | after the header box is unchecked, delete sends nothing; after it is checked over a non-empty list, the request names exactly the listed ids |
| Selection.DeleteAfterToggle | src/app/prompt-status/page.jsx:46-50 | after a row box is clicked, delete sends a request exactly when some box is ticked, and one click from an empty selection sends that one id |
| CompletedPage.HeaderChange | src/app/completed/page.jsx:190-201 | checking selects exactly the current page's ids; unchecking removes them from the selection |
| CompletedPage.HeaderChangeSpec | src/app/completed/page.jsx:190-206 | checking drops selections on other pages and then shows checked exactly when the page has rows; unchecking removes only the page's ids and then shows unchecked |
| CompletedPage.FormatDateTime | src/app/completed/page.jsx:122-142 | `""` for an empty or missing value, the value itself when it is not a valid date, its `YYYY-MM-DD HH:mm` form otherwise |
| CompletedPage.Pad2ReadsBack | src/app/completed/page.jsx:133-138 | a field below 100 padded to two digits reads back as itself |
| CompletedPage.TailChars | src/app/completed/page.jsx:133-141 | after the year come `-`, month, `-`, day, a space, hours, `:`, minutes, each two digits reading back as the field |
| CompletedPage.Glue | src/app/completed/page.jsx:141 | the separators and the four fields sit at fixed places in the twelve characters after the year |
| CompletedPage.ParseTail | src/app/completed/page.jsx:141 | a digit year followed by twelve such characters reads back as that date |
| CompletedPage.FormattedRoundTrip | src/app/completed/page.jsx:122-142 | the display loses nothing of a valid date: reading it back gives the date |
| CompletedPage.FormattedInjective | src/app/completed/page.jsx:122-142 | two valid dates with the same display are the same date to the minute |
| PromptStatusPage.ParseItemsInOrder | src/app/prompt-status/page.jsx:82-86 | when no row throws, the upload is the trimmed, non-empty first cells of the data rows, in row order |
| PromptStatusPage.ParseItemsThrows | src/app/prompt-status/page.jsx:82-86 | the parse throws exactly when some data row's first cell is a number, which has no `trim` |
| PromptStatusPage.ParseUpload | src/app/prompt-status/page.jsx:79-86 | an empty sheet gives no prompt; otherwise the header row is dropped and the data rows parsed |
| PromptStatusPage.ParseUploadTrimmed | src/app/prompt-status/page.jsx:79-86 | at most one prompt per data row, each non-empty and already trimmed |
| PromptStatusPage.ParseUploadKeeps | src/app/prompt-status/page.jsx:79-86 | every data row whose first cell is text with something besides whitespace contributes it, trimmed |
| PromptStatusPage.ParseItemsFrom | src/app/prompt-status/page.jsx:82-86 | each parsed prompt is non-empty and trimmed, at most one per row |
| PromptStatusPage.ParseItemsKeeps | src/app/prompt-status/page.jsx:82-86 | a row with a kept prompt contributes it |
| PromptStatusPage.AsUploads | src/app/prompt-status/page.jsx:83-85 | each prompt is sent as an object whose 프롬프트 property is it, in order (sent at line 115) |
| PromptStatusPage.SaveUpload | src/app/prompt-status/page.jsx:111-121 | with no guard, an empty upload is sent and refused with 400; a non-empty one saved when the database answers gets 200, and saving it again inserts nothing |
| PromptStatusPage.SelectAllShows | src/app/prompt-status/page.jsx:36-43 | with distinct ids the header box shows checked after checking exactly when there are prompts, unchecked after unchecking, and unchecked after any row click that follows checking (the header box at lines 201-203) |
| KeywordPage.ParseKeywords | src/app/keyword/page.jsx:28-29 | the upload is the truthy cells of the sheet, row after row, header row included |
| KeywordPage.ParseKeywordsSpec | src/app/keyword/page.jsx:28-29 | every parsed keyword is a truthy cell, there are no more than cells, and every truthy cell of every row is parsed |
| KeywordPage.FlattenIndex | src/app/keyword/page.jsx:29 | each cell of the sheet has a place in the flattened list |
| KeywordPage.SentItems | src/app/keyword/page.jsx:51 | the route reads no `keyword` and no `first_keyword` from a bare cell |
| KeywordPage.InsertIgnoreKeyless | src/app/keyword/page.jsx:51 | `INSERT IGNORE` of rows with no unique key skips none |
| KeywordPage.UploadAccepted | src/app/keyword/page.jsx:40-57 | a request the page sends is answered 200 when the database answers |
| KeywordPage.UploadStoresNoKeyword | src/app/keyword/page.jsx:29-51 | every uploaded cell becomes a row of two `NULL`s, each of which is added when the unique key ignores `NULL`s |
| KeywordPage.CellText | src/app/keyword/page.jsx:29 | a truthy cell has non-empty text |
| KeywordPage.IntendedItems | src/app/keyword/page.jsx:51 | the intended request wraps each keyword as `{ keyword: cell }`, in order |
| KeywordPage.IntendedStoresKeywords | src/app/keyword/page.jsx:29-51 | with the intended request every parsed keyword's text is in the keyword column afterwards |
| KeywordPage.SelectAllShows | src/app/keyword/page.jsx:106-113 | with distinct ids the header shows checked after checking; after unchecking it shows checked only for an empty list (the header box at line 201) |
| Util.RowNumberNamesItem | src/app/keyword/page.jsx:219 | the `#` column's `(currentPage - 1) * itemsPerPage + index + 1` names the item's place in the whole list, counting from 1 |
| WordpressPage.HeaderKey | src/app/wordpress/page.jsx:59-62 | 네이버ID and 네이버PW are renamed to the names the save route reads, any other text header is kept, and only an empty header names nothing |
| WordpressPage.BuildObject | src/app/wordpress/page.jsx:59-64 | the `reduce` filling `acc` in place builds the row's object |
| WordpressPage.RowObjectKeys | src/app/wordpress/page.jsx:59-64 | an object has a property exactly for each header that names it |
| WordpressPage.RowObjectLastWins | src/app/wordpress/page.jsx:62 | the value under a name is the cell of the last column with that name |
| WordpressPage.Uploaded | src/app/wordpress/page.jsx:57-65 | one object per row after the header, object `k` built from row `k + 1`; an empty sheet gives none |
| WordpressPage.ParseUpload | src/app/wordpress/page.jsx:57-67 | the `map` over the data rows yields the uploaded objects |
| WordpressPage.AccountSheetFeedsWorklist | src/app/wordpress/page.jsx:57-65 | with the account header, a row's five columns become, in order, the five columns the save route stores |
| WordpressPage.ResetFormSendsNothing | src/app/wordpress/page.jsx:100-124 | a form just cleared cannot be sent again |
| WordpressPage.EditFetchedRowSent | src/app/wordpress/page.jsx:133-152 | editing a row of the fetched list, whose `id` is the auto-increment key (1 or more), always sends the edited row with every field as edited; with no row being edited nothing is sent |
| WordpressPage.SaveRequestAccepted | src/app/wordpress/page.jsx:74-83 | a save the page sends never gets the route's 400: 200 exactly when the statement succeeds, 500 otherwise |
| WordpressPage.Pagination | src/app/wordpress/page.jsx:214-217 | page `p` shows at most 15 accounts, the row numbered `(p-1)*15 + index + 1` being that account's place in the list; there are ceil(n/15) pages, none empty (15 a page at line 12, row numbers at line 388, page buttons at line 556) |
| Util.PageSliceAt | src/app/completed/page.jsx:116-119 | `slice((page-1)*per, page*per)` holds at most `per` items, item `k` being item `(page-1)*per + k` of the list; it is empty exactly when it starts past the end, and full unless it is the last. The pages use it with 100 (completed and keyword, src/app/keyword/page.jsx:116-119), 10 (src/app/prompt-status/page.jsx:123-126) and 15 (the wordpress page) |
| Util.Trim | src/app/prompt-status/page.jsx:84 | `trim()` gives the slice of the text surrounded only by whitespace whose two ends are not whitespace |
| Util.TrimIdempotent | src/app/prompt-status/page.jsx:84 | trimming twice is trimming once |
| Util.NatToStringRoundTrip | src/app/api/prompt-status/save/route.js:48 | `String(n)` reads back as `n` |
| Util.Pad2 | src/app/completed/page.jsx:133-138 | `padStart(2, "0")` of a number below 100 is two digits reading back as it |

## Left out

- Browser automation in `automation.py` (Selenium, element waits and clicks, the clipboard, `time.sleep`, logging) is not modelled. What it decides is an input: whether a login succeeds, whether the site's domain link is clicked, and what each URL submission shows.
- The `requests.post` to `updatePyMark` in `automation.py` is not sent. It is recorded as a `Mark` event, in order; a failing post is only logged by the source, so it changes nothing here.
- Automation.ProcessAllSets: when a wait times out, the exception also skips `driver.quit()`, so the browser stays open. Browsers are not modelled.
- DailyRecords.Record: `postCount` is an integer. The route's `typeof postCount !== "number"` also lets through 1.5, `NaN` and `Infinity`, and `!username` lets through any truthy non-string username. Floating-point counts and non-string usernames are not modelled.
- `updatePrompt`'s 500 answer is not modelled: a body that is not JSON, or a failing read or write of `gemini.js` (src/app/api/scripts/updatePrompt/route.js:52-58). The file is an input, and the written text is the result.
- File reads are not modelled: `read_worklist_file`, opening the URL file, and the `worklist.json` write in `run_automate.js`. The lines and the parsed JSON are inputs.
- A failing `worklist.json` write in `run_automate.js` would reach the outer `catch` and exit with status 1. That file error is not modelled.
- `flymode.py` is not part of this model. It is ADB subprocess plumbing.
- The worker behind `/start-automate` and `/start-automation-py` is not part of this model. A failing `runAutomate` call is caught and the loop goes on, so `RunAutomate.RunMain` does not depend on its outcome.
- `RunAutomate.RunMain` records whether `automation.py` is requested, but not the request's result, which the source only logs.
- Console output, `sleep(2000)` and `process.exit` are left out. The exit status is `RunAutomate.DriverExit`.
- The Gemini SDK call in `gemini.js` is an input: the generated text, or a failure that gives `null`.
- The clock is a parameter. In `daily-records/update` the KST date (`getKSTDateString`) is read for each record, so it is a function from the record's position to a date; in `daily-records/init` it is one `today` per request. `new Date(...)` in `formatDateTime` is a function to date parts, and `toLocaleDateString("en-CA")` in the naver-check filters is a function to a day string.
- `new URL(link)` in the naver-check grouping is a partial function to a protocol and a hostname.
- The XLSX/FileReader decoding of uploads is not modelled. An upload arrives as rows of cells (`undefined`, a string or an integer).
- Cells are never floating-point numbers or booleans: `Util.Cell` has integers only.
- The database is a value or a class field. Its failures are inputs: a `failAt` position, or a flag per statement.
- The `keywords` table's unique key is not in the repository. It is a parameter of `KeywordsSave`.
- The `worklist` table's schema is not in the repository either. `WorklistSave` takes `username` as its unique key, as the route implies by leaving `username` out of its `UPDATE` list (src/app/api/worklist/save/route.js:25-29). `WorklistSave.UpsertKeys`, `WorklistSave.UpsertLastWins` and `WorklistSave.UpsertIdempotent` rest on that.
- Connection handling, `release()` and the SQL text are left out. `INSERT IGNORE` and `ON DUPLICATE KEY UPDATE` are modelled by what they do to the rows.
- The thin single-statement routes are not part of this model, because they carry no logic beyond one SQL statement:
  - `posts/*`, `keywords/fetch|update|delete` and `completed-keywords/*`;
  - `prompt-status/fetch|delete|random`;
  - `worklist/add|update|fetch|delete`;
  - `time-setting`, `get-time` and `daily-records/fetch`;
  - `get-links` and `get-yesterday-links`;
  - the process start/stop and log routes.
- The pages' fetches, alerts, messages and React rendering are left out. Each handler is modelled by the request it sends (or `None` when a guard stops it) and by the new selection, list or form.
- The naver-check page's `applySort` effect (src/app/naver-check/page.jsx:53-58, 108-133) is not modelled. It sorts the post list by `baseUrl` or `oCount`, which posts do not carry, so it compares `""` with `""` or `NaN` with `NaN`. Either way the comparator gives 0 (ECMA-262's SortCompare turns a `NaN` result into +0), and the stable sort leaves the list in its order. The displayed order comes from `sortedProcessedData`, which is modelled.
- The naver-check date options (src/app/naver-check/page.jsx:150-168) are not modelled. They are `Set`s of formatted dates sorted by `new Date`.
- Duplicate ids in a page list are not modelled. `Selection.DistinctIdsCount` and the `SelectAllShows` lemmas assume distinct ids, as the tables' primary keys give them.
- String `<` in the naver-check sort compares whole characters, not UTF-16 code units. The two orders differ only for characters outside the Basic Multilingual Plane.
- The naver-check sort is modelled as a stable insertion sort. `Array.prototype.sort` is stable since ECMAScript 2019, so the order is the same, but the engine's algorithm is not modelled.
- WordpressPage.HeaderKey: a header that is a number names a property by its decimal form. Property-name quirks of JavaScript objects are not modelled: `__proto__`, and integer-like names being listed first.
- CompletedPage.FormatDateTime: `getFullYear()` and the other getters are a parameter. How `new Date` reads a string and which time zone applies are left to it.

## Findings

| source | as written | input that shows it | evidently intended | confidence | as-written member | corrected member |
|---|---|---|---|---|---|---|
| src/app/api/scripts/updatePrompt/route.js:43 | `replace` is given the new template as a replacement string, so `$` patterns in the user's prompt (`$$`, `$&`, `` $` ``, `$'`, `$1`) are expanded | the prompt `$$` is written into `gemini.js` as `$`; a prompt holding `$&` gets the old template pasted in | the trimmed prompt goes into the file literally, e.g. by passing a function as the replacement | not executed | UpdatePrompt.DollarPairExample | UpdatePrompt.IntendedWritesPrompt |
| src/app/keyword/page.jsx:51 | the page sends the bare keyword cells, while `keywords/save` reads `item.keyword` and `item.first_keyword` (src/app/api/keywords/save/route.js:20), which are `undefined` on a string | any non-empty upload, e.g. one sheet cell `"apple"`: the route answers 200 and inserts a row `(NULL, NULL)` | each keyword is sent as `{ keyword: cell }`, so its text reaches the `keyword` column | not executed | KeywordPage.UploadStoresNoKeyword | KeywordPage.IntendedStoresKeywords |
