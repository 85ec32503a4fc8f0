# rusty-bot-swarm core, modelled in Dafny

rusty-bot-swarm drives Twitter accounts from a swarm of bots. This project
models the pieces of it that decide what happens, leaving out the browser,
the database and the network around them:

- **`Cronueue`**: the run loop of a repeating job (`CronueueAction::run_queue`).
  Each cycle takes one control message from the job's channel: `0` stops
  the loop, anything else is a sleep in milliseconds. The cycle then reads
  the clock. When the reading equals the job's execution time, it takes
  the driver, behavior and database locks, calls the action and drops the
  locks. `Once`, `Multiple(n)` and `Forever` decide when the loop stops by
  count. The environment of a run is an input: the messages, the clock
  readings and what each call would return. The loop is an imperative
  method, `RunQueue`. It is proved equal to a recursive reference run,
  `Run`, and every property is proved about `Run`.
- **`Registry`**: the job registry (`ReadWriteQueue`). It is a list of named
  entries (`CronChannel`), each with the messages sent to its channel and the
  number of run loops launched on it. It is a class whose methods append an
  entry and signal the latest entry, or the first entry with a given name.
- **`Search`**: the search-page URL builder (`Search::format_text`). Each
  present field becomes one query fragment. The fragments are joined with
  `+`, and the five characters of `URL_ENC_MAP` are percent-encoded.
- **`RecordPosts`**: post recording. It covers which regex matches or page
  links are read for each record mode, how a match is copied out of the JSON
  text through its `split("")` pieces, and how the post id and the user name
  are cut from the copy. It also covers which profile tab is opened and which
  documents are stored.
- **`Utils`**: the timeline request URL (`make_get_post_url`), the name of
  the day's collection (`today_date_coll_name`) and the random wait
  (`rand_num_wait`).
- `Text` models the Rust string operations the core relies on: `join`,
  `replace`, `split(..).last()` and decimal formatting. `Base` holds
  `Option`, `Result` and the unsigned integer types.

Regex matches, WebDriver lookups, the clock, the random generator and
action results are parameters of the model.

The run loop calls the action only when the clock reading is *equal* to
`exec_time` (`src/cronueue.rs:57`). Timestamps have sub-second precision, so
a run whose readings all miss that instant never calls the action. The
method `Cronueue.RunQueue` keeps this literal test (`Exact`). The reference
run `Cronueue.Run` also takes the "due" test the design calls for (`Due`: a
reading at or after `exec_time`). It is listed under Findings.

Where the design description of the system and the code differ, the model
follows the code:
- A registry lookup that finds nothing does nothing. The description calls
  it a reported error, but the code has no error path there.
- `launch_name` looks only at the first entry, where the description has a
  scan in registration order.
- `suspend(0)` sends the same message as `terminate`, so it stops the loop.

## Model

| member | source | states |
|---|---|---|
| Text.ReplaceCharIsMapChars | src/search.rs:150 | `replace` of a one-character key substitutes that character everywhere and keeps every other character |
| Text.MapCharsCompose | src/search.rs:149-151 | when no replacement value contains a later key, replacing keys one after another is one simultaneous substitution |
| Text.ReplaceCharIsRemove | src/record_posts.rs:338 | replacing `"` by nothing removes every quote and nothing else |
| Text.ReplaceAllAbsent | src/record_posts.rs:337 | `replace` leaves a text without the pattern unchanged |
| Text.DecimalRoundTrip | src/utils.rs:75 | the decimal digits `format!` writes for a count read back as that count |
| Text.LastSegment | src/record_posts.rs:355-357 | `split("/").last()` has no `/`, is a suffix of the text, follows a `/` when shorter than the text, and is the whole text when there is no `/` |
| Text.LastSegmentAfter | src/record_posts.rs:363 | the last segment of `pre/last` is `last` when `last` has no `/` |
| Utils.PartsReadable | src/utils.rs:74-75 | both the URL pieces as written and the corrected ones can be read back. The opening as written ends in `3A%`, the corrected one in `%22`, and the closing starts with `%22` |
| Utils.RequestUrlFrame | src/utils.rs:73-79 | for any pieces, the URL starts with the prefix, the link id and the path, and ends with the fixed remainder |
| Utils.MakeGetPostUrlFrame | src/utils.rs:73-79 | `make_get_post_url` starts with `https://twitter.com/i/api/graphql/<linkid>/UserTweets?variables=` and ends with `REMAINDER_STR` verbatim |
| Utils.RequestUrlRoundTrip | src/utils.rs:73-79 | for readable pieces, parsing the URL back gives the user id, the count and the link id, when the link id has no `/` and the id has no `%` |
| Utils.MakeGetPostUrlRoundTrip | src/utils.rs:73-79 | the URL `make_get_post_url` builds determines its three arguments |
| Utils.RequestUrlIdAt | src/utils.rs:75 | the user id sits right after the last three characters of the opening and right before the first three of the closing |
| Utils.LoneEscapeTakesId | src/utils.rs:75 | an opening that ends in a lone `%` makes that `%` and the id's first two characters one escape sequence |
| Utils.MakeGetPostUrlUnquotedId | src/utils.rs:75 | as written, the three characters at the `%` before the id are `%` and the id's first two characters, never `%22`, unless the id starts with `22` |
| Utils.MakeGetPostUrlQuotedId | src/utils.rs:75 | with the opening quote restored, the id sits between two `%22` and the URL still reads back to its arguments |
| Utils.Pad2 | src/utils.rs:65 | `%m`/`%d`: two digits that read back as the number |
| Utils.Pad4 | src/utils.rs:65 | `%Y`: four digits that read back as the year |
| Utils.TodayDateCollName | src/utils.rs:62-70 | the name is 16 characters long, has dashes at 4 and 7 and ends in `-posts` |
| Utils.CollNameRoundTrip | src/utils.rs:62-70 | the collection name determines the date it was made from |
| Utils.RandNumWait | src/utils.rs:35-37 | the wait is between 120 and 254: the range excludes 255 |
| Search.EncValuesAvoidKeys | src/search.rs:6-16 | no encoded value contains a character that is itself encoded |
| Search.ReplaceInOrderEncodes | src/search.rs:149-151 | one `replace` per key, in any order of distinct keys, encodes exactly those keys |
| Search.EncodingOrderIrrelevant | src/search.rs:149-151 | every iteration order of `URL_ENC_MAP` gives the same encoded query |
| Search.FragmentsBySlot | src/search.rs:44-145 | the fragments are the fourteen slots in the order of the pushes |
| Search.PushTermFragments | src/search.rs:44-109 | the first eight pushes give the first eight slots: words, phrase, any words, none words, hashtags, from, to, mentions |
| Search.PushFilterFragments | src/search.rs:111-145 | the remaining six pushes complete the fragments: the minimum counts, the language and the two dates |
| Search.FormatText | src/search.rs:43-159 | `format_text` returns `SearchUrl` of the search, whatever order the map is iterated in |
| Search.SearchUrl | src/search.rs:147-158 | the URL starts with the search prefix and ends with `&src=typed_query`, and no encoded character is left between them |
| Search.EmptySearchUrl | src/search.rs:147-158 | a search with no fields gives the bare prefix and suffix |
| Search.UnreadFieldsIgnored | src/search.rs:73-109 | the hashtag, to-accounts and mentioned-accounts fields never change the URL |
| Search.NoneWordsFillThreeSlots | src/search.rs:66-109 | `none_words` alone gives three fragments: the excluded words and two `(a+OR+b)` groups |
| Search.FromAccountsFillTwoSlots | src/search.rs:80-102 | `from_accounts` alone gives a `from:` group and a `to:` group of the same accounts |
| Search.DatesRenderAlike | src/search.rs:135-145 | a `date_to` gives the same URL as a `date_from` with the same value |
| Search.EncodeJoin | src/search.rs:147-151 | encoding a join of words that hold no encoded character joins them with the encoded separator |
| Search.SingleFragmentQuery | src/search.rs:147-151 | a search with one fragment queries that fragment, encoded |
| Search.SingleFieldQuery | src/search.rs:147-151 | a search with one non-empty slot queries that slot's fragment, encoded |
| Search.EncodePlus | src/search.rs:9 | `+` encodes as `%2B` |
| Search.AllWordsQuery | src/search.rs:46-50 | plain words reach the query joined by `%2B` |
| Search.LabelledQuery | src/search.rs:111-127 | `label:n` encodes as `label%3A` and the digits of `n` |
| Search.MinRepliesQuery | src/search.rs:111-115 | a minimum reply count alone queries `min_replies%3A<n>` |
| Search.MinLikesQuery | src/search.rs:117-121 | a minimum like count alone queries `min_faves%3A<n>` |
| Search.MinRetweetsQuery | src/search.rs:123-127 | a minimum retweet count alone queries `min_retweets%3A<n>` |
| Search.IntendedSlotsReadOwnFields | src/search.rs:73-145 | with each slot reading its own field and `date_to` written as `until:`, each of those fields alone gives exactly its own fragment |
| RecordPosts.NthIsRange | src/record_posts.rs:278-293 | every mode reads the matches `0..k`, where `k` is 1, 5, 10, or the match count truncated to `u32` |
| RecordPosts.NthInBounds | src/record_posts.rs:295-296 | every index read is a match exactly when the mode needs no more matches than there are |
| RecordPosts.NthAllFound | src/record_posts.rs:288-291 | below 2^32 matches, `AllFound` reads every match once, in order |
| RecordPosts.SplitEmptyPieces | src/record_posts.rs:272 | `split("")` is an empty piece, one piece per character, and an empty piece |
| RecordPosts.CopyThroughSplit | src/record_posts.rs:298-300 | pushing pieces `a..b` of `split("")` copies the text one position to the left, `s[a-1..b-1]` |
| RecordPosts.SplitCopyIntended | src/record_posts.rs:298-300 | pushing pieces `a+1..b+1` copies exactly `s[a..b]` |
| RecordPosts.CopyPieces | src/record_posts.rs:298-300 | the push loop concatenates pieces `a..b` in order |
| RecordPosts.DigitMatchIsLeftmostRun | src/record_posts.rs:311-315 | `\d+` has no match exactly when there are no digits. Otherwise the match is the leftmost maximal run of digits |
| RecordPosts.ExtractNumbers | src/record_posts.rs:310-324 | `extract_numbers` returns the split copy of the leftmost digit run |
| RecordPosts.ExtractNumbersIntended | src/record_posts.rs:310-324 | copying the run itself returns exactly the leftmost digit run |
| RecordPosts.PostPrefixShape | src/record_posts.rs:16 | the text `RE_POST` requires before the digits is 32 characters long, has no digit and ends in a quote |
| RecordPosts.MatchedIdRoundTrip | src/record_posts.rs:16 | a match of `RE_POST` is the lead text, an id of one or more digits, and a quote |
| RecordPosts.IdShift | src/record_posts.rs:295-302 | what `get_posts` computes from one match is the shifted value: empty when a digit precedes the match, otherwise a quote and the id without its last digit |
| RecordPosts.IdAsWrittenIsNotId | src/record_posts.rs:295-302 | that value is never the post's id |
| RecordPosts.PostIdAsWrittenExample | src/record_posts.rs:266-307 | a timeline holding only post `123` reports `"12` |
| RecordPosts.IdInMatch | src/record_posts.rs:310-324 | in the match itself, the leftmost digit run is the id |
| RecordPosts.RequestPostId | src/record_posts.rs:296-304 | one step of `get_posts` yields the shifted id |
| RecordPosts.RequestPostIdIntended | src/record_posts.rs:296-304 | the step with unshifted copies yields the id |
| RecordPosts.IdsAsWrittenAt | src/record_posts.rs:295-305 | entry `k` of the result comes from match `k` |
| RecordPosts.MatchedIdsAt | src/record_posts.rs:295-305 | entry `k` of the corrected result is the id of match `k` |
| RecordPosts.IdsAsWrittenAreNotIds | src/record_posts.rs:266-307 | no entry `get_posts` returns is the id of the post it was read from |
| RecordPosts.GetIds | src/record_posts.rs:266-307 | `get_posts` over the matches of any lead text returns the shifted value of each match the mode reads, in order |
| RecordPosts.GetIdsIntended | src/record_posts.rs:266-307 | the corrected loop returns the ids of the matches the mode reads, in order |
| RecordPosts.GetPosts | src/record_posts.rs:266-307 | `get_posts` with `RE_POST` returns the shifted values |
| RecordPosts.ScreenNameKeyShape | src/record_posts.rs:17 | the user-name key is quoted, has no quote inside and no colon |
| RecordPosts.MatchedName | src/record_posts.rs:17 | the captured name is one or more of `[A-Za-z0-9_]` |
| RecordPosts.NameMatchParts | src/record_posts.rs:17 | the match is the key, a colon and the quoted name |
| RecordPosts.NameShift | src/record_posts.rs:326-340 | the shifted copy with the key and then every quote removed is the character before the match (unless it is a quote), a colon and the name |
| RecordPosts.NameAsWrittenIsNotName | src/record_posts.rs:326-341 | `extract_user_name` never returns the bare name: a colon always stays in |
| RecordPosts.NameAsWrittenExample | src/record_posts.rs:326-341 | `{"screen_name":"bob"}` yields `{:bob` |
| RecordPosts.ExtractUserName | src/record_posts.rs:326-341 | `extract_user_name` returns that text, which has no quote |
| RecordPosts.NameIntended | src/record_posts.rs:326-341 | removing the key with its colon from the match itself, then the quotes, leaves the name |
| RecordPosts.ExtractUserNameIntended | src/record_posts.rs:326-341 | the corrected extraction returns exactly the captured name |
| RecordPosts.HrefClickTextInjective | src/record_posts.rs:124-137 | different tweet types open different tabs |
| RecordPosts.ProfileTab | src/record_posts.rs:118-130 | a profile URL ending in `/name` gives the user name `name` and the posts tab `/name` |
| RecordPosts.CollectHrefs | src/record_posts.rs:155-187 | reading links at the indices collects each present `href` in order, or panics when an index is past the links |
| RecordPosts.ScrapeSelect | src/record_posts.rs:153-190 | scraping returns the selection of the links for the mode and the pinned tweet |
| RecordPosts.ScrapeNotEnoughExactly | src/record_posts.rs:159-172 | "Not enough posts!" happens exactly for `LastFive`/`LastTen` with fewer than 5/10 links |
| RecordPosts.ScrapeOutOfRangeExactly | src/record_posts.rs:153-180 | with at most one pinned tweet, an index is past the links exactly when `Last` finds no link after the pinned one, or `LastFive`/`LastTen` find a pinned tweet and only the 5/10 links the guard asks for |
| RecordPosts.ScrapeGuardMissesPinned | src/record_posts.rs:159-168 | five links, one pinned, in `LastFive`: the guard passes and `links[5]` panics |
| RecordPosts.ScrapeIntendedInRange | src/record_posts.rs:153-180 | with the guard counting the pinned tweet, no index is ever past the links, and the links are read whenever there are enough of them |
| RecordPosts.ScrapeIntendedAgrees | src/record_posts.rs:153-180 | the corrected guard changes nothing else |
| RecordPosts.Docs | src/record_posts.rs:359-370 | one document per post |
| RecordPosts.DocsAt | src/record_posts.rs:359-370 | document `k` holds the user name and the text after the last `/` of post `k`, which has no `/` |
| RecordPosts.PostDocuments | src/record_posts.rs:359-378 | the error "Length of posts is 0" exactly when there are no posts, and the documents otherwise |
| RecordPosts.StatusLinkDocument | src/record_posts.rs:359-370 | a status link `base/status/id` is stored as `id` |
| RecordPosts.PlainIdDocument | src/record_posts.rs:391-402 | a post id without `/` is stored as it is |
| Cronueue.Cycle | src/cronueue.rs:43-101 | a cycle that goes on adds exactly one step and has not used up the inbox |
| Cronueue.ReplayAppend | src/cronueue.rs:58-98 | replaying a log with one more event is one more lock step |
| Cronueue.LockCycle | src/cronueue.rs:58-98 | from no lock held, taking the three locks in order holds all three. Dropping them, explicitly or by returning early through `?`, holds none again |
| Cronueue.RunQueue | src/cronueue.rs:34-104 | the loop's outcome and trace are those of the reference run with the literal time test. Every lock taken is released, six lock events per call. After a failed call or the counter overflow the guards are dropped in reverse order (db, behavior, driver); after a completed run, in the order of the explicit `drop`s. The lock log is exactly `LockLog` of the run's trace and outcome: one take-all and drop per call, and nothing else |
| Cronueue.LockLogBalanced | src/cronueue.rs:58-98 | however a run ends, by count, by `?` or by the overflow panic, no lock is held at its end, after six lock events per call |
| Cronueue.CallLocksReplay | src/cronueue.rs:58-98 | after any number of completed calls, each taking the locks and dropping them explicitly, no lock is held |
| Cronueue.CallLocksPrefix | src/cronueue.rs:43-101 | the lock events of the first `k` cycles are the start of the lock events of the whole run |
| Cronueue.CycleLocks | src/cronueue.rs:43-101 | each cycle starts with no lock held, and a cycle that calls the action holds all three locks during the call, taken in the order driver, behavior, db |
| Cronueue.LockLogSound | src/cronueue.rs:34-104 | over a whole run: no lock is held at the start of any cycle, every call holds all three locks, and none is held at the end, whether the run ends by count, by `?` or by the overflow panic |
| Cronueue.RunFromSound | src/cronueue.rs:43-101 | from any consistent loop state, the rest of the run ends `Sound` |
| Cronueue.RunSound | src/cronueue.rs:34-104 | every run ends `Sound`: the steps match the messages and readings, and each outcome happens exactly in its own case |
| Cronueue.ZeroEndsTheLoop | src/cronueue.rs:44-48 | a cycle stops exactly when it receives `0`. The run is `Terminated` exactly when the last message read is `0`, and it never reads past the first `0` |
| Cronueue.OneMessagePerCycle | src/cronueue.rs:43-53 | each cycle takes one message. The loop is left waiting in `recv` only once all messages are taken, none of them `0`; every other outcome comes from a cycle that took a message |
| Cronueue.CallsOnlyAtExecTime | src/cronueue.rs:55-57 | the action is called exactly in the cycles with a non-zero message and a reading equal to `exec_time` |
| Cronueue.OnceCallsAtMostOnce | src/cronueue.rs:59-71 | `Once` calls at most once, the loop ends in the cycle of the call, and the run completes exactly when that call succeeds |
| Cronueue.MultipleCallsAtMostNum | src/cronueue.rs:72-87 | `Multiple(n)` with `n >= 1` calls at most `n` times and ends in the cycle of the `n`-th call. It completes exactly when that call succeeds, and the counter never overflows |
| Cronueue.NoCountForZeroOrForever | src/cronueue.rs:72-98 | `Multiple(0)` and `Forever` never complete by count. Only `Multiple(0)` overflows, after 2^32 calls |
| Cronueue.ErrorEndsTheRun | src/cronueue.rs:58-98 | every call before the last succeeded. The run fails exactly when its last step is a call that failed, with that call's error |
| Cronueue.NoCallWithoutExactReading | src/cronueue.rs:55-57 | with no reading equal to `exec_time`, the action is never called, and the run either ends on `0` or is left waiting in `recv` for a further message |
| Cronueue.DueCallsOnceLate | src/cronueue.rs:55-57 | with an "at or after" test, a run without `0` that has a late reading calls the action at least once |
| Cronueue.LateReadingExample | src/cronueue.rs:55-71 | `Once` at 100 with readings 101, 102 and messages 1, 0: the loop passes and stops. The "at or after" test would have completed |
| Registry.NewCronChannel | src/read_write_queue.rs:20-33 | the stored name is the raw name followed by `-queue`, and the channel is empty |
| Registry.StoredNameIsNotRaw | src/read_write_queue.rs:23-25 | the stored name never equals the raw name it was added under |
| Registry.StoredNamesInjective | src/read_write_queue.rs:23-25 | different raw names give different stored names |
| Registry.Apply | src/read_write_queue.rs:53-59 | `suspend(ms)` appends `ms` and `terminate` appends `0` to the entry's channel, while `launch` starts one more run loop. The name and action stay the same |
| Registry.SuspendZeroIsTerminate | src/read_write_queue.rs:53-59 | `suspend(0)` sends the very message `terminate` sends |
| Registry.FindName | src/read_write_queue.rs:137-143 | the result is the first entry with the name, or none when no entry has it |
| Registry.LastIndex | src/read_write_queue.rs:93 | the last entry, none exactly when the registry is empty |
| Registry.FirstEntryIfNamed | src/read_write_queue.rs:111-119 | the first entry exactly when it has the name, nothing otherwise |
| Registry.SignalKeepsShape | src/read_write_queue.rs:83-168 | a signal keeps the names and actions of all entries, and every entry but the target unchanged |
| Registry.ByNameReachesFirstMatch | src/read_write_queue.rs:132-168 | a signal by name changes exactly the first entry with that name |
| Registry.DuplicateNameShadowed | src/read_write_queue.rs:73-81 | two actions added under one name get equal names, and a lookup by that name stops at or before the first of them |
| Registry.LaunchNameSeesOnlyFirst | src/read_write_queue.rs:100-120 | as written, `launch_name` changes nothing unless the first entry has the name |
| Registry.LaunchNameMissesSecondEntry | src/read_write_queue.rs:100-120 | entries `a-queue` and `b-queue`: `launch_name("b-queue")` launches nothing, while a search of the whole list launches the second |
| Registry.ReadWriteQueue.constructor | src/read_write_queue.rs:66-71 | a new registry is empty |
| Registry.ReadWriteQueue.AddNewAction | src/read_write_queue.rs:73-81 | appends one new entry and keeps every existing one |
| Registry.ReadWriteQueue.FirstNamed | src/read_write_queue.rs:137-143 | the search loop finds the first entry with the name |
| Registry.ReadWriteQueue.LaunchLatest | src/read_write_queue.rs:83-98 | launches the last entry, and does nothing on an empty registry |
| Registry.ReadWriteQueue.LaunchName | src/read_write_queue.rs:100-120 | launches the first entry only when it has the name |
| Registry.ReadWriteQueue.LaunchNameIntended | src/read_write_queue.rs:100-120 | launches the first entry with the name anywhere in the registry |
| Registry.ReadWriteQueue.SuspendLatest | src/read_write_queue.rs:122-130 | sends the pause to the last entry |
| Registry.ReadWriteQueue.SuspendName | src/read_write_queue.rs:132-144 | sends the pause to the first entry with the name, and does nothing if none has it |
| Registry.ReadWriteQueue.TerminateLatest | src/read_write_queue.rs:146-154 | sends `0` to the last entry |
| Registry.ReadWriteQueue.TerminateName | src/read_write_queue.rs:156-168 | sends `0` to the first entry with the name, and does nothing if none has it |

## Left out

- The browser and the web: WebDriver navigation, clicks, XPath lookups, scrolling scripts and sleeps. A page's status links are an input, each an optional `href`.
- Database inserts and collections. The model computes the documents that would be inserted, but not the insert.
- The HTTP request in `get_json`, and its headers. The response text is an input.
- The regular-expression engine. Matches of `RE_POST` and `RE_USER_NAME` are spans given as input, characterised by the predicates `IsIdMatch` and `IsNameMatch`. Only the leftmost `\d+` of `extract_numbers` is computed.
- RecordPosts.CopyThroughSplit: byte offsets are taken as character indices, so the JSON is assumed ASCII before the end of the match. The source reads piece `j` of `split("")`, which is character `j-1`, for every byte offset `j` of the match. So each extra byte of a multi-byte character before the match moves the copy one character to the right, or the copy indexes past the last piece and panics at `json_chars[j]`.
- RecordPosts.GetIds: the same ASCII assumption, for every match the record mode reads.
- RecordPosts.GetPosts: the same ASCII assumption, for every match of `RE_POST`.
- RecordPosts.ExtractNumbers: the same ASCII assumption for the copied text; besides, Rust's `\d` also matches non-ASCII decimal digits, which the model's `IsDigit` does not.
- RecordPosts.ExtractUserName: the same ASCII assumption, for the match of `RE_USER_NAME`.
- `Search::from_json_string` (serde deserialisation) is not part of this model.
- Concurrency: task spawning, the async runtime, `Mutex` waiting and channel blocking. Locks are a ghost log of acquire and release events. A channel is the list of messages sent to it, and a launch is a counter.
- `CronChannel::launch` is modelled only as the launch count. The loop it runs is `Cronueue.RunQueue`.
- The action itself (`Action::call`) is not part of this model. Its results are an input.
- The clock, `Utc::now()`, is an input: the reading of each cycle, or the date for the collection name.
- The random generator is modelled as a free choice in range.
- Panics that the source hits on bad input are preconditions of the model where they come from indexing or `unwrap`: `matches[n]` in `get_posts`, and the regex `find(..).unwrap()`. Panics on scraped links and the counter overflow of the run loop are modelled as outcomes.
- The run loop's receive error (the `Err` arm of `recv`, "Bad cross-thread message") is not modelled: it cannot happen, because `CronChannel::launch` runs the loop on the receiver of a `CronChannel` that it keeps locked for the whole run and that holds the channel's sender. The end of `inbox` stands for `recv` blocking until a further message is sent (outcome `Waiting`).
- Utils.TodayDateCollName: years outside 0..9999 are not modelled. There `%Y` writes a sign or more digits.
- Cronueue.RunQueue: the `times_ran += 1` overflow, reached only by `Multiple(0)` after 2^32 calls, is modelled as a panic (debug build). A release build wraps the counter to 0, which equals `num`, so that run completes instead.
- Registry.ReadWriteQueue.SuspendLatest: `suspend_latest` takes the registry by value and consumes it. The model keeps the registry afterwards.
- `write_to_file`, `read_from_file`, `convert_timestamp` and `write_strings_to_zip` in `src/utils.rs` are file and time I/O outside the core.

## Findings

| source | as written | input that shows it | evidently intended | confidence | as-written member | corrected member |
|---|---|---|---|---|---|---|
| src/read_write_queue.rs:111 | `launch_name` iterates over `into_iter().next()`, an `Option`, so only the first entry is inspected | entries `a-queue`, `b-queue`; `launch_name("b-queue")` | launch the first entry with the name, as `suspend_name` and `terminate_name` do | high; not executed | Registry.LaunchNameMissesSecondEntry | Registry.ReadWriteQueue.LaunchNameIntended |
| src/record_posts.rs:298-302 | matches are copied through `split("")`, whose first piece is empty, so each copy starts one character early and drops the last one. This happens twice: for the match, then in `extract_numbers`. Stated for ASCII text before the match | the JSON `"__typename":"Tweet","rest_id":"123"` | the post id `123` | high; not executed | RecordPosts.IdsAsWrittenAreNotIds | RecordPosts.GetIdsIntended |
| src/record_posts.rs:333-338 | `extract_user_name` copies the match one character early, then removes the key and the quotes but not the colon. Stated for ASCII text before the match | the JSON `{"screen_name":"bob"}` gives `{:bob` | the user name `bob` | high; not executed | RecordPosts.NameAsWrittenIsNotName | RecordPosts.ExtractUserNameIntended |
| src/record_posts.rs:160 | the length guard of `LastFive` and `LastTen` ignores the pinned tweet, whose presence shifts the indices read by one | five links, one of them pinned, in `LastFive` | panic with "Not enough posts!" rather than index past the links | medium; not executed | RecordPosts.ScrapeGuardMissesPinned | RecordPosts.ScrapeIntendedInRange |
| src/search.rs:73 | the hashtag fragment, and the mention fragment at line 104, are built from `none_words` | a search with only `none_words = ["x"]` | each of `hashtags` and `mentioning_accounts` fills its own fragment | high; not executed | Search.NoneWordsFillThreeSlots | Search.IntendedSlotsReadOwnFields |
| src/search.rs:92 | the `to:` fragment is built from `from_accounts` | a search with only `from_accounts = ["a"]` gives `(from:a)` and `(to:a)` | the `to:` fragment reads `to_these_accounts` | high; not executed | Search.FromAccountsFillTwoSlots | Search.IntendedSlotsReadOwnFields |
| src/search.rs:136 | `date_to` is written with the `since:` operator | `date_to = "2022-01-01"` queries `since:` the same day as `date_from` would | `until:` for `date_to` | high; not executed | Search.DatesRenderAlike | Search.IntendedSlotsReadOwnFields |
| src/utils.rs:75 | the user id follows `%3A%` directly, so the lone `%` and the id's first two characters form one escape sequence | id `12345` gives `%3A%12345`, where `%12` is one escaped byte | `%3A%22` before the id, a quoted user id | high; not executed | Utils.MakeGetPostUrlUnquotedId | Utils.MakeGetPostUrlQuotedId |
| src/cronueue.rs:57 | the action runs only in a cycle whose clock reading equals `exec_time` exactly | `Once` at time 100, readings 101 and 102, messages 1 and 0: the run ends on the `0` without a call | call the action once the reading is at or after `exec_time` | medium; not executed | Cronueue.LateReadingExample | Cronueue.DueCallsOnceLate |
