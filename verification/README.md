# svncherrypicker core, modelled in Dafny

svncherrypicker helps a user cherry-pick Subversion revisions from a source
branch into a destination branch. It caches the metadata of every revision
that is still eligible for merging. The user filters that cache by author,
message, changed paths, dates and revision numbers. They pick revisions into a
"shopping cart" and finally get the `svn merge -c…` command that merges the
cart.

This project models the engine behind those steps in `index.js`:

- the guard every cache reader starts with (no session, no cache, no revisions);
- the filter engine (`core.filter`), including `parseRegex` and the
  `r:` / `r:f:<flags>:` / `g:` criterion tags;
- the pick list (`core.pickRevisions`): its selector grammar, pick as
  append-then-`_.uniq`, and unpick as `_.difference`;
- the merge command (`core.getMergeCommand`);
- the pure parts of population (`core.cacheUnmergedCommits`): the mergeinfo
  line parser, the reuse rule for cached entries, and the all-or-nothing
  commit over a series of fallible fetches.

Layout, one module per file:

| module | file | contents |
|---|---|---|
| `Wrappers` | wrappers.dfy | `Option`, `Result` |
| `Text` | text.dfy | JavaScript `trim`, ASCII `toLowerCase`, `indexOf`, `split`/`join` on one character |
| `Numbers` | numbers.dfy | `parseInt(s, 10)`, truthiness of its result, decimal rendering |
| `Lists` | lists.dfy | underscore's `_.uniq` and `_.difference`, distinctness, subsequences |
| `Snapshot` | snapshot.dfy | revision records, the cache, the session, errors, the load guard |
| `Patterns` | patterns.dfy | the tagged criterion strings as a `Plain` / `Regex` / `Glob` union |
| `Filtering` | filtering.dfy | the check chain, its declarative meaning, the filter operation |
| `PickList` | picklist.dfy | selector parsing and the pick / unpick operation |
| `Merging` | merging.dfy | the merge command |
| `Population` | population.dfy | mergeinfo parsing, entry reuse, the refresh loop |
| `Walkthrough` | walkthrough.dfy | a two-revision example, run through filter, pick and merge |

The cache file is a `Cache` value with these fields:

- `revisions`: a map from revision id to `Revision(rev, author, date, paths, message)`.
- `order`: the insertion order of the JSON object's keys. A filter visits the revisions in this order.
- `lastFiltered`: the last filter result.
- `picked`: the pick list.

A `Context` holds the current session and the cache file, each optional. Every
operation takes the context and returns a `Result`. Operations that write the
cache back return the cache they write.

The filter has two definitions:

- `Filtering.Checks` follows the chain of `continue` checks one by one, with the
  same `indexOf` arithmetic.
- `Filtering.Satisfies` says what each criterion means, using occurrences and
  day intervals.

`Filtering.ChecksIffSatisfies` proves that the two agree for every revision and
every criteria record. `Filtering.Admits` runs the chain and carries that
agreement as its contract. The contract of `Filtering.Filter` is stated in
terms of `Satisfies`.

## Model

| member | source | states |
|---|---|---|
| Snapshot.Load | index.js:250-262 | the three precondition errors, in the source's order ("no session", then "run populate before this", then "no revisions"); success exactly when a session and a non-empty cache are present |
| Patterns.ParseRegex | index.js:193-205 | `r:` is dropped. Without a following `f:` the rest is the pattern with no flags. With `f:`, the flags contain no colon and are followed by the pattern, which keeps its own colons; a missing second colon gives an empty pattern |
| Patterns.ParsePaths | index.js:293-335 | `r:` gives a regex, otherwise `g:` gives a glob of the remaining text, otherwise the text is plain; a regex is the one `parseRegex` reads from the text |
| Patterns.ParseMessage | index.js:277-291 | `r:` gives a regex, otherwise the text is plain; a message criterion is never a glob; a regex is the one `parseRegex` reads from the text |
| Patterns.ParseRegexFormat | index.js:193-205 | writing a regex pattern with flags free of colons as `r:` or `r:f:<flags>:` and parsing it back gives the same pattern and flags |
| Patterns.ParsePathsFormat | index.js:293-323 | every writable pattern survives a write/parse round trip as a paths criterion |
| Patterns.ParseMessageFormat | index.js:277-291 | every writable non-glob pattern survives a write/parse round trip as a message criterion |
| Text.IndexOf | index.js:287-289 | never below -1; -1 exactly when the needle occurs nowhere; otherwise an occurrence with no earlier one |
| Text.Split | index.js:465 | at least one part, no separator inside any part, and the parts joined by the separator rebuild the input |
| Text.SplitJoin | index.js:465 | splitting a join of separator-free parts gives the parts back |
| Numbers.ParseInt | index.js:467 | a text without any digit reads as NaN |
| Numbers.ParseIntNaN | index.js:467 | after leading white space, a first character that is neither a digit nor a sign gives NaN, as for "x5" |
| Numbers.ParseIntSignNaN | index.js:467 | a sign not followed by a digit gives NaN, as for "-x1" or "+" |
| Numbers.ParseIntZero | index.js:467 | "0" reads as 0, the falsy number the pick and line parsers drop |
| Numbers.ParseIntToString | index.js:467 | `parseInt` reads back the decimal rendering of every integer, negatives included |
| Numbers.ParseIntStopsAtNonDigit | index.js:467 | `parseInt` stops at the first character that is not a digit: a rendered integer followed by any tail that does not start with a digit reads as that integer |
| Numbers.ParseIntReadsPrefix | index.js:467 | `parseInt` also skips any leading white space before the number it reads |
| Text.TrimPadded | index.js:467 | `trim` removes exactly the white space around a text that neither starts nor ends with white space |
| Lists.Uniq | index.js:484 | `_.uniq`: no repeats, the same elements as the input, and the elements in the order of their first occurrence in the input |
| Filtering.Admits | index.js:273-371 | a revision survives the filter exactly when it meets every supplied criterion (`Filtering.Satisfies`) |
| Filtering.ChecksIffSatisfies | index.js:266-371 | the check chain admits a revision exactly when each supplied criterion holds: equal author; regex hit or plain occurrence at an index above 0 (case aside); some path hits; date strictly before / after the day's midnight, or on the day; rev strictly above / below a non-zero bound; rev in the `revs` list |
| Filtering.AnyPathHitsIff | index.js:302-335 | the flag raised by the loop over paths is set exactly when some path matches |
| Filtering.DayStart | index.js:214-217 | the date a `yyyy-mm-dd` option stands for is the first instant of its day: it lies on that day and the instant before it on the previous day; the strict bounds built on it are `Filtering.DateBoundsExclusive`, the same-day check `Filtering.SameDayIff` |
| Filtering.SameDayIff | index.js:352-357 | same calendar day as the criterion day exactly when the time lies in that day's half-open interval |
| Filtering.Select | index.js:264-376 | the collected ids are exactly the cached ids whose revision satisfies the criteria, in key order |
| Filtering.Filter | index.js:250-388 | load errors are passed through. On success the ids are exactly the satisfying cached ids, in key order and without repeats, and the returned revisions are theirs one for one. The written cache keeps its revisions, key order and pick list. Its last filter result becomes the ids unless `dontUpdateLast` is set, in which case it stays as it was |
| Filtering.FilterIdempotent | index.js:250-388 | filtering the cache a filter wrote, with the same criteria, returns the same result and writes the same cache |
| Filtering.LastFilteredAreResultRevs | index.js:378-382 | when every entry is filed under its own rev, the recorded list is the `rev` of each returned revision, in result order |
| Filtering.NoCriteriaAdmitsAll | index.js:273-371 | with every criterion absent, or the rev bounds at 0 (falsy), every revision passes |
| Filtering.PlainMessageAtStartRejected | index.js:287-289 | a plain message criterion rejects a message that starts with it (case aside), although the message contains it |
| Filtering.PlainMessageExamples | index.js:287-289 | "sent" rejects "sent update" and accepts "just sent" |
| Filtering.EmptyPathsNeverMatch | index.js:293-297 | with a paths criterion, a revision with no changed paths never passes, whatever the mode |
| Filtering.DateBoundsExclusive | index.js:338-357 | a revision stamped at midnight of a day passes neither the before nor the after bound of that day, and passes the same-day check |
| Filtering.RevBoundsExclusive | index.js:359-365 | a revision passes neither rev bound equal to its own non-zero rev |
| PickList.TokenId | index.js:466-470 | a token kept from a selector is never 0 |
| PickList.TokenIdZero | index.js:466-470 | a token reading as 0, white space around it, selects nothing |
| PickList.TokenIdNaN | index.js:466-470 | a token whose text starts with neither a digit nor a sign reads as NaN and selects nothing |
| PickList.RenderedTokenSelects | index.js:466-470 | the decimal rendering of a non-zero id is read back as that id |
| PickList.TokenIdPadded | index.js:465-471 | a non-zero id with white space on either side, as in the selector "3, 4", is read back as that id |
| PickList.Resolve | index.js:456-472 | "last" resolves to the last filter result and "all" to nothing; any other selector yields at most one id per comma-separated item, none of them 0 |
| PickList.ResolveIdList | index.js:463-471 | a comma-joined list of non-zero ids resolves to exactly those ids, in order, so picking "3,4" picks 3 and 4 |
| PickList.IdListRoundTrip | index.js:465-471 | a comma-joined list of non-zero ids is parsed back to the same ids, in order |
| PickList.Appended | index.js:483-484 | pick result: no repeats; holds exactly the old and the new ids; a duplicate-free old list stays in front, followed by the new ids not already in it, repeats dropped, in first-seen order |
| PickList.Removed | index.js:479 | unpick result: exactly the old ids not being removed, in their old order |
| PickList.PickRevisions | index.js:430-491 | load errors are passed through. An empty selector returns the list unchanged when picking, and is the "Provide revisions field" error when unpicking. "all" is an error when picking and empties the list when unpicking. "last" resolves to the last filter result. Any other selector is parsed as a comma list. Pick gives a duplicate-free union that keeps a duplicate-free old list as its prefix; unpick gives a set difference that keeps order. The written cache differs only in its pick list |
| PickList.PickKeepsDistinct | index.js:474-485 | a duplicate-free pick list stays duplicate-free after every successful call |
| PickList.PickAppendsNewIds | index.js:483-484 | on a duplicate-free list, pick gives the old list followed by the new ids, in first-seen order |
| PickList.RepickLeavesListUnchanged | index.js:483-484 | picking ids that are all already picked leaves the list, and its length, unchanged |
| PickList.PickThenUnpickRestores | index.js:474-484 | picking ids none of which are picked and then unpicking the same selector restores the original list, order included |
| PickList.UnpickAllClears | index.js:474-477 | unpicking "all" empties the list and writes the cache with an empty pick list |
| Merging.MergeCommand | index.js:410-414 | the command is "svn merge ", an argument, then " source destination"; the argument is empty exactly when nothing is picked |
| Merging.GetMergeCommand | index.js:396-417 | load errors are passed through; otherwise the command is built from the session and the pick list |
| Merging.MergeCommandNamesPicked | index.js:410-414 | the command starts with "svn merge " and ends with " source destination". With no picks nothing lies between them; otherwise a `-c` argument lies between them, and read back as a selector it gives exactly the picked ids, in order |
| Population.LineId | index.js:69-79 | a line yields an id only when its trimmed text starts with `r` and has more after it, and the id is never 0 |
| Population.LineIdZero | index.js:72-77 | the line `r0`, white space around it, yields nothing |
| Population.LineIdNaN | index.js:72-77 | a line `r` followed by text that starts with neither a digit nor a sign, such as `rabc`, yields nothing |
| Population.LineIdPadded | index.js:69-79 | a line `r<n>` with n non-zero and white space around it yields n |
| Population.EligibleIds | index.js:68-79 | the mergeinfo output yields at most one id per line, none of them 0 |
| Population.Stored | index.js:107-121 | a reusable entry (one cached with a non-empty path list, index.js:107) is kept as it was, without the fetcher; any other id takes the entry the fetcher returned |
| Population.LineIds | index.js:69-79 | every id kept from the mergeinfo lines is non-zero, and there is at most one per line |
| Population.ListingLineId | index.js:71-76 | a line `r<n>` with n non-zero yields n |
| Population.EligibleListingRoundTrip | index.js:69-79 | a listing of non-zero ids as `r<id>` lines is parsed back to exactly those ids, in order |
| Population.Refresh | index.js:104-135 | succeeds exactly when every eligible id can be filled in. A reusable cached entry, one with a non-empty path list, is kept as it was; any other id is fetched. A failure is the first failing fetch, and every earlier id was available. On success the cache is keyed by exactly the eligible ids, in first-seen order, with no last filter result and no picks |
| Population.RefreshWellKeyed | index.js:107-121 | with a fetcher that returns the asked-for revision, and previous entries filed under their own rev, every refreshed entry is filed under its own rev |
| Population.Populate | index.js:60-141 | "no session" without a session. An empty mergeinfo output ends with no cache. Otherwise a cache is written exactly when every eligible id of the output is available. A failure is the fetch error of the first id that is neither reusable nor fetchable, and leaves the cache file as it was. A written cache is keyed by exactly the eligible ids, in first-seen order; each entry is the reused or fetched one; it has no last filter result and no picks |
| Walkthrough.SelectBoth | index.js:264-376 | on a two-revision cache, the filter keeps each revision exactly when it passes, in key order |
| Walkthrough.AuthorExample | index.js:273-275 | the author filter "alice" returns r1 only |
| Walkthrough.GlobExample | index.js:312-323 | the glob filter `g:*.js` returns r1 only, given a matcher that matches `/src/a.js` and not `/docs/readme.md` |
| Walkthrough.RevAfterExample | index.js:359-361 | `revAfter` 1 returns r2 only |
| Walkthrough.RevAfterRecordsSecond | index.js:378-385 | that filter writes the cache back with `[2]` as the last filter result and everything else unchanged |
| Walkthrough.PickLastPicksSecond | index.js:461-484 | picking "last" on that cache gives the pick list `[2]` |
| Walkthrough.MergeNamesSecond | index.js:410-414 | the merge command is then `svn merge -c2 ^/trunk ^/branches/release` |

## How the code is read

The model reads the code as follows:

- Ids are integers, not naturals. `parseInt` keeps a sign, so `-3` is a truthy id and is kept.
- Population writes a new cache object that has neither a pick list nor a last filter result, so a refresh resets both to empty.
- A `revs` criterion that is present but empty is truthy in JavaScript, so it rejects every revision.
- Rev bounds of 0 are falsy and impose nothing.
- An empty mergeinfo output is falsy. Population then ends with `false` and writes nothing.
- Plain message matching rejects an occurrence at index 0. The source's `<= 0` test does this, and the model keeps it.

## Left out

- File persistence (`fs-extra`), the md5 cache-file fingerprint and the `current_session.json` file: the session and the cache file are the two fields of a `Context`, and written caches are returned.
- The `svn-spawn` calls: the `mergeinfo` output is a string parameter and `core.getLog` is an abstract fetcher, so its normalisation of `svn log` entries is not modelled.
- The `clui` spinner, console output and `async.series` plumbing, which change no result.
- Regular-expression and minimatch glob semantics, including the `g`-flag `lastIndex` state carried across paths: matching is an uninterpreted `Matchers` value, and a `RegExp` constructor that throws on a bad pattern is not modelled.
- JavaScript `Date` and time zones. `parseDate` is modelled as the midnight (`DayStart`) of a day number that the criteria carry. Calendar `yyyy-mm-dd` conversion is not modelled, and the same-day check compares day numbers in one fixed zone.
- `toLowerCase` lowers ASCII letters only; Unicode case mapping is not modelled.
- `parseInt` is modelled on unbounded integers; the floating-point rounding of very long digit strings is not modelled.
- A cache file holding `null` or revisions without a `log` record is not modelled: a cache is always a well-formed record.
- Filtering.Filter: the source rewrites each visited entry's `date` as a `Date` and its `rev` as a parsed integer before writing the cache back; the model's entries already have those types, so the written cache keeps its revisions as they were.
- Options given as strings on the command line (`revAfter`, `revBefore`) and their loose `<=` comparison are not modelled: the criteria carry integers.
- `core.loadCurrentSession` and `core.setupCurrentSession` read and write the session file only, and are not part of this model.
- bin/index.js (command-line wiring and display) and utils.js (console tables) are not part of this model.
