# Wikidata maintenance bots, modelled in Dafny

This project models the decision and text-handling logic of three pywikibot maintenance scripts.

- **Properties-for-deletion archiver** (`wikidata_pfd.py`). It splits the PfD listing into its active part and its on-hold part. For each request line it checks whether the discussion page is closed. It moves closed requests to the year's archive, keeps the watchlist notice's id list in step with the open requests, tidies the listing and saves the pages.
- **English Wikipedia / Wikidata mismatch reporter** (`wikidata_enwiki_mismatch.py`). It works through each tracking sub-category.
  - It reads the property id and local template name from the category's tracking template.
  - It takes a local id from each of the first five member pages.
  - It prints a CSV-like line when the item has exactly one claim for the property and that claim differs from the local id.
- **New-item creator** (`wikidata_new_from_wikipedia.py`). It puts each unconnected page through an ordered chain of checks. When a page passes and the operator confirms, it creates an item with a label, a sitelink and possibly a P31 claim. It stops after 100 creations.

The wiki client is not modelled; its results are inputs.

- Page texts are strings.
- A discussion page's text is given by a function from titles to texts.
- Templates are (title, parameters) pairs.
- Items are optional maps from property ids to claim lists.
- Page metadata is a record of booleans and `timedelta` values.
- Page saves and item creations are the runs' recorded effects.

Python's string operations are modelled on `seq<char>` in module `Text`: `in`, `split`, `join`, `replace`, `strip`, `splitlines`, `lower` and `title`. Their definitions follow Python's left-to-right, non-overlapping scanning, and lemmas relate them (for example, `replace` is `join` of `split`, and `split` undoes `join`).

Each script body is an imperative method with the script's own local variables and loops. Each is proved equal to a specification function, and the properties are proved about those functions.

In three places the scripts do something other than what their authors evidently meant (see Findings). Each top-level run therefore takes a parameter saying which reading of that place it runs. The code as written and the intended code are both modelled, and lemmas state what each one does:

- `Pfd.SplitRule` for line 39 of the archiver;
- `Mismatch.SkipRule` for line 34 of the reporter;
- `NewItem.AgeRule` for lines 84 and 91 of the creator.

Some behaviour of the code is easy to misread, and the model follows the code:

- **Tracking-template scan.** The scan of the tracking template keeps the *last* match, not the first. It matches `property`/`template` anywhere in a parameter. It takes the text between the first and second `=`, and a matching parameter without `=` ends the script.
- **Skip rule.** As written, only an empty property id skips a category (see Findings).
- **Claim titles.** A string claim target is compared after `str.title()`, but the local id is not. So an id that title-casing changes is reported as a mismatch even when Wikidata holds exactly the local id: `nm1` is compared as `Nm1` (`Mismatch.EqualIdReported`).
- **Edit age.** As written, a page edited ten days ago is rejected, because of `.seconds` (see Findings).
- **Creation age.** The creation-age check uses the one-day edit threshold (`days_since_last_edit`, line 92), as written. `days_since_creation` (14 days) is never used.
- **Long ids.** Reading the notice back keeps only ids shorter than five characters (line 48). An id of five or more digits is written to the notice but not read back.

`wikidata_pfd.py:54` has a stray `:` after `'text/' not in line` and does not parse as written. The model takes the evident reading: the conjunction of the five substring tests (`Pfd.IsRequestLine`).

## Model

| member | source | states |
|---|---|---|
| Text.ReplaceIsJoinSplit | wikidata_pfd.py:66 | `replace` of a non-empty pattern replaces exactly the occurrences `split` cuts at: it is the pieces joined with the replacement |
| Text.StripSlice | wikidata_enwiki_mismatch.py:26 | `strip` returns a contiguous slice of its input with only whitespace cut away on either side |
| Common.RemoveFirst | wikidata_pfd.py:70 | `list.remove` cuts out the first occurrence of the id and keeps the other elements in their order |
| Pfd.DropP | wikidata_pfd.py:19 | the result is the input with every `P` and every `p` deleted and the other characters kept in order |
| Pfd.DropPAppend | wikidata_pfd.py:19 | deleting the letters distributes over concatenation |
| Pfd.DropPNumber | wikidata_pfd.py:57 | the id of `P` or `p` followed by a number is that number |
| Pfd.DropPKeeps | wikidata_pfd.py:19 | an id without `P`/`p` is unchanged |
| Pfd.Watchnotice | wikidata_pfd.py:16-21 | the notice text starts with `<ul class='hlist' style='display: inline; margin: 0;'><onlyinclude>` and ends with `</onlyinclude></ul>` |
| Pfd.NoticeBodyAppend | wikidata_pfd.py:18-19 | appending an id to the list appends exactly one `{{PropertyRFD|x}} ` entry for it, so entries follow list order |
| Pfd.RebuildWatchnotice | wikidata_pfd.py:16-21 | the accumulating loop of `rebuild_watchnotice` returns the notice text of its list, which depends on the list alone |
| Pfd.CollectIds | wikidata_pfd.py:46-49 | the ids collected so far are a prefix of the result; no duplicates are introduced; an id is in the result iff it was already there or is shorter than five characters and occurs among the pieces' ids; the ids added come in the order of their first occurrence |
| Pfd.ReadNoticeIds | wikidata_pfd.py:44-49 | the decoding loop returns the notice's id list. The list has no duplicates. It holds exactly the piece ids shorter than five characters, in the order of their first occurrence. A piece id is the text before `}}` after each `{{PropertyRFD|` |
| Pfd.NoticeRoundTrip | wikidata_pfd.py:44-49 | decoding a notice written by `rebuild_watchnotice` from a duplicate-free list of well-formed ids gives the list back, in order, and rewriting it gives the identical text |
| Pfd.LongIdNotReadBack | wikidata_pfd.py:48 | an id of five or more characters written to the notice is lost when the notice is read back |
| Pfd.NonRequestLineIgnored | wikidata_pfd.py:54 | a line containing `Header` or `<!--` leaves the run state unchanged |
| Pfd.RequestPid | wikidata_pfd.py:55-57 | the pid is absent (the script's `IndexError`) iff the brace-stripped, trimmed title has no `/`; a pid never contains `P`/`p` |
| Pfd.RequestPidSegment | wikidata_pfd.py:57 | the pid is the segment between the first and second `/` of the page title with `P`/`p` removed |
| Pfd.IsClosed | wikidata_pfd.py:61-62 | closed iff `{{discussion bottom}}` occurs in one of the last three lower-cased lines; the result is the error iff the page has fewer than three lines and none of them closes it |
| Pfd.StepEffect | wikidata_pfd.py:62-78 | closed: the archive gains `\n` + line, the listing loses every occurrence of the line, and the pid is cut out of the notice list where it stood (the list is untouched if the pid was not on it). Open: the pid is appended to the list unless already there, and nothing else changes. In both cases the list stays duplicate-free, and the notice is saved exactly when the list changed: to the notice page, with the text for the new list and the `-`/`+` summary naming the pid |
| Pfd.ProcessLine | wikidata_pfd.py:53-78 | one pass of the line loop on the script's variables, including both index errors, equals the step function |
| Pfd.FoldKeepsNotice | wikidata_pfd.py:69-78 | if the notice list starts duplicate-free and in step with the last saved notice, it stays so over the whole loop, and the saves made before are still the first saves |
| Pfd.ListingPartsAsWritten | wikidata_pfd.py:39 | as written, line 39 raises `IndexError` iff the listing does not contain the literal word `split_text` |
| Pfd.ListingPartsAsWrittenCrashes | wikidata_pfd.py:39 | a listing that is just the hold marker makes the code as written fail, while the intended split succeeds |
| Pfd.ListingParts | wikidata_pfd.py:37-39 | the intended split fails iff the listing lacks the hold marker |
| Pfd.ListingPartsRoundTrip | wikidata_pfd.py:37-39 | with the marker occurring once, the split gives the active part and the marker-prefixed on-hold part, which concatenate back to the page |
| Pfd.TidyKeeps | wikidata_pfd.py:81-82 | the tidy-up leaves a listing with no `_` and no triple newline unchanged |
| Pfd.TidyRemovesUnderscoredName | wikidata_pfd.py:81-82 | no `Properties_for_deletion` is left after line 81, and line 82 does not bring one back |
| Pfd.TidyLeavesTripleNewline | wikidata_pfd.py:82 | one `replace` pass can leave a triple newline: five newlines become three |
| Pfd.ArchivePageName | wikidata_pfd.py:28-31 | 2022 has its fixed archive page; any other year is `Wikidata:Requests for permissions/RfBot/` followed by the year |
| Pfd.ArchiveRequests | wikidata_pfd.py:27-88 | the script body (split by either reading of line 39, decode, line loop, tidy, saves) produces exactly the specified run effects, stopping before the final saves on an index error |
| Pfd.ArchiveActive | wikidata_pfd.py:40-88 | from the active part on, the script body produces exactly the specified run effects |
| Pfd.ArchiverRunAsWritten | wikidata_pfd.py:39 | as written, a listing without the word `split_text` ends the run with no save at all |
| Pfd.ArchiverRunAsWrittenSavesNothing | wikidata_pfd.py:36-88 | a listing with the hold marker once, no `split_text` and no request line: as written nothing is saved. As intended the run completes with its two final saves: the year's archive page with the archive text, then the listing page with the tidied active part followed by the on-hold part |
| Pfd.FoldNoRequests | wikidata_pfd.py:53-54 | lines that do not name a PfD page leave the loop's variables unchanged |
| Pfd.RunNoticeConsistent | wikidata_pfd.py:69-78 | after a run the last notice saved lists exactly the tracked ids, and with well-formed ids the next run reads back the same list |
| Mismatch.ParamValue | wikidata_enwiki_mismatch.py:26 | `split('=')[1]` is defined iff the parameter contains `=` |
| Mismatch.ParamValueOf | wikidata_enwiki_mismatch.py:26 | for `name=value` and `name=value=more` the value is the stripped `value` |
| Mismatch.ScanParam | wikidata_enwiki_mismatch.py:25-28 | one tracking parameter raises the index error iff it mentions `property` or `template` but has no `=` |
| Mismatch.ScanFails | wikidata_enwiki_mismatch.py:24-28 | the scan fails iff some tracking parameter mentions a key but cannot be split |
| Mismatch.ScanLastWins | wikidata_enwiki_mismatch.py:24-28 | on success each of propid and templatename is the value of the last parameter mentioning its key, or unchanged when none does |
| Mismatch.TrackingPair | wikidata_enwiki_mismatch.py:24-28 | parameters `property=P` and `template=T` (neither mentioning the other key) yield the stripped `P` and `T` |
| Mismatch.ScanTemplateParams | wikidata_enwiki_mismatch.py:24-28 | the parameter loop, with its early error exits, equals the scan function |
| Mismatch.ReadTrackingParams | wikidata_enwiki_mismatch.py:18-28 | the loop over the category's templates scans exactly the parameters of templates titled with `Wikidata tracking category` |
| Mismatch.SkipAsWrittenReadsAnyTemplate | wikidata_enwiki_mismatch.py:34 | as written, a category with a property id but no template name is processed, and a page's unrelated `{{title|x}}` then yields the local id `x` |
| Mismatch.UnnamedCategorySkipped | wikidata_enwiki_mismatch.py:34 | with the intended rule such a category prints nothing |
| Mismatch.UnnamedCategoryPrintsAsWritten | wikidata_enwiki_mismatch.py:34-83 | a category with a property id, no template name and one page carrying an unrelated `{{title\|x}}` and a single claim different from `x`: as written it prints that page's line, as intended nothing |
| Mismatch.Candidate | wikidata_enwiki_mismatch.py:53-56 | a positional parameter offers itself verbatim, an `id=` parameter its stripped value, any other named parameter nothing |
| Mismatch.LocalIdFirstWins | wikidata_enwiki_mismatch.py:50-56 | a non-empty local id never changes; from empty, the result is the first non-empty candidate, or empty when there is none |
| Mismatch.ReadLocalId | wikidata_enwiki_mismatch.py:45-56 | the nested loops read the local id from the parameters of the templates whose title contains the template name, in order |
| Mismatch.NoNamedTemplateNoReport | wikidata_enwiki_mismatch.py:49 | a page with no template whose title contains the template name reports nothing |
| Mismatch.TargetTitle | wikidata_enwiki_mismatch.py:80 | a page-valued target (item, property, file, lexeme) gives its title and a string its `str.title()`. A value without `title()` abandons the page: a quantity, time, coordinate, monolingual text or no value |
| Mismatch.StringClaimComparedTitleCased | wikidata_enwiki_mismatch.py:80-81 | a string value whose title-casing changes it after stripping is reported even when the local id is exactly that string |
| Mismatch.EqualIdReported | wikidata_enwiki_mismatch.py:80-83 | a page with local id `nm1` and the single Wikidata string `nm1` prints a line with `Nm1` as the Wikidata value |
| Mismatch.CompareClaims | wikidata_enwiki_mismatch.py:75-83 | the counting loop reports iff there is exactly one claim, its target has a title, and it differs from the local id after stripping both |
| Mismatch.PageReport | wikidata_enwiki_mismatch.py:59-83 | a page reports only with a non-empty local id, an item, and exactly one claim for the property |
| Mismatch.ProcessPage | wikidata_enwiki_mismatch.py:44-85 | the page's processing, with every `except: continue` as an absent result, equals the page report |
| Mismatch.ReportLineFields | wikidata_enwiki_mismatch.py:83 | when no field holds a comma, the printed line splits on `,` back into snak id, property, Wikidata value, local id and the page URL, whose title part has no spaces |
| Mismatch.Reports | wikidata_enwiki_mismatch.py:38-41 | a list of pages prints at most one line per page |
| Mismatch.ProcessCategory | wikidata_enwiki_mismatch.py:18-85 | the category's scan, skip rule (either reading of line 34) and counted page loop print the reports of the first five pages only |
| Mismatch.CategoryCap | wikidata_enwiki_mismatch.py:37-41 | a category prints at most five lines |
| Mismatch.LaterPagesIgnored | wikidata_enwiki_mismatch.py:37-41 | pages after the fifth are passed over: adding more changes nothing |
| Mismatch.CrashStops | wikidata_enwiki_mismatch.py:15-28 | once a scan has raised, later categories change nothing |
| Mismatch.RunBound | wikidata_enwiki_mismatch.py:15-85 | a run prints at most five lines per category |
| Mismatch.Run | wikidata_enwiki_mismatch.py:15-85 | the loop over sub-categories, with either reading of line 34 and ended by the first scan error, equals the run specification |
| NewItem.AgeSeconds | wikidata_new_from_wikipedia.py:84 | the `.seconds` age is always below one day; the whole age lies within the `timedelta`'s day count |
| NewItem.LastSkip | wikidata_new_from_wikipedia.py:74-78 | `trip` is unset iff no template of the page is in the skip set; when set, it is a template of the page that is in the set |
| NewItem.FindSkipTemplate | wikidata_new_from_wikipedia.py:74-80 | the scan loop records the last skip template |
| NewItem.CheckPage | wikidata_new_from_wikipedia.py:58-122 | the chain of `continue`s yields the first failing check in the script's order |
| NewItem.EligibleIff | wikidata_new_from_wikipedia.py:58-122 | with whole ages, a page passes iff it is an article or category, not a redirect, has no skip template, was edited and created at least a day ago, has no item, is a non-empty visible category if a category, and, when search finds results, was edited at least seven days ago |
| NewItem.AsWrittenNeverEligible | wikidata_new_from_wikipedia.py:84-87 | with `.seconds` no page passes; every page past the skip-template check is rejected as recently edited |
| NewItem.NewItemData | wikidata_new_from_wikipedia.py:127 | the item has one label, in `en`, and one sitelink, to `enwiki`, both carrying the page title |
| NewItem.P31Target | wikidata_new_from_wikipedia.py:136-148 | a P31 claim is added iff the page is a category or a disambiguation page |
| NewItem.P31Distinct | wikidata_new_from_wikipedia.py:136-148 | disambiguation categories, other categories and disambiguation articles get three different targets |
| NewItem.Run | wikidata_new_from_wikipedia.py:52-163 | the page loop with `nummodified` equals the run specification, and the counter equals the number of items created |
| NewItem.Wanted | wikidata_new_from_wikipedia.py:126-135 | at most one item per page is called for |
| NewItem.RunCreatesWanted | wikidata_new_from_wikipedia.py:128-163 | a run creates the items of the eligible, confirmed pages, in order, cut off at the cap |
| NewItem.RunCap | wikidata_new_from_wikipedia.py:161-163 | a run creates at most 100 items |
| NewItem.RunCreatesAll | wikidata_new_from_wikipedia.py:128-135 | below the cap, every eligible, confirmed page becomes an item |
| NewItem.AsWrittenWantsNothing | wikidata_new_from_wikipedia.py:84-87 | with `.seconds` no page calls for an item |
| NewItem.AsWrittenCreatesNothing | wikidata_new_from_wikipedia.py:84-87 | as written, a run creates no item at all |
| NewItem.WholeAgeCreates | wikidata_new_from_wikipedia.py:82-135 | with whole ages, a confirmed article edited over a week ago, with no item, skip template or redirect, becomes the run's first item |

## Left out

- Wiki client calls are not modelled; their results are inputs and their writes are recorded effects. This covers:
  - site and session setup;
  - page fetches and saves;
  - category and unconnected-page generators;
  - `templatesWithParams`;
  - `ItemPage.fromPage`/`get`;
  - `editEntity`, `addClaim` and `touch`.
- The search request (`search_entities`) is reduced to a boolean "results empty" per page.
- `datetime.now()` is not modelled. The archiver takes the year as a string, and the creator takes ages as `timedelta` (days, seconds). Microseconds are dropped, because they never decide a comparison with a whole number of days.
- The interactive `input('Continue?')` is a per-page boolean.
- Building the skip-template set by following redirects (lines 40-48 of the creator) is not modelled; the set is given.
- Debug prints and the progress prints are not modelled. The mismatch report lines are the reporter's output.
- The creator's loop over `wikipedias` is not modelled, since it holds only `en`; the prefix is a constant.
- Page identity for skip templates is by title.
- Exceptions other than the ones the scripts demonstrably raise are not modelled. Those modelled are the index errors, a failed item lookup and a claim target without `title()`. Errors inside the client calls are not.
- Text.Lower: handles ASCII letters only; Python's `lower()` also folds non-ASCII letters.
- Text.Title: handles ASCII letters only; Python's `title()` also recognises non-ASCII letters as cased.
- Mismatch.TargetTitle: a claim's snak id is taken to be a string. A missing snak id would make the page's print fail, which the page's `except` absorbs.

## Findings

| source | as written | input that shows it | evidently intended | confidence | as-written member | corrected member |
|---|---|---|---|---|---|---|
| wikidata_pfd.py:39 | the on-hold part is taken from `listpage.text.split('split_text')[1]`, a split on the literal word | a listing that contains the hold marker but not the word `split_text`: the index fails and nothing is archived | split on the variable `split_text` (the hold marker), as line 38 does | high (not executed) | Pfd.ArchiverRunAsWrittenSavesNothing | Pfd.ListingPartsRoundTrip |
| wikidata_enwiki_mismatch.py:34 | `template == ''` compares the leftover (page, parameters) loop pair with a string, which is never true | a tracking template with `property=P214` and no `template=` parameter: every template title contains `''`, so any positional parameter of any template becomes the local id | `templatename == ''` | high (not executed) | Mismatch.UnnamedCategoryPrintsAsWritten | Mismatch.UnnamedCategorySkipped |
| wikidata_new_from_wikipedia.py:84 | the ages use `timedelta.seconds`, the remainder below one day, so every age is below 1.0 day (also at line 91) | a page last edited ten days ago is rejected as recently edited; no item is ever created | `total_seconds()` | high (not executed) | NewItem.AsWrittenCreatesNothing | NewItem.WholeAgeCreates |
