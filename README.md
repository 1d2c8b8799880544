# Broken link checker — a Dafny model of its logic

The link checker is a web page. A user enters a site URL. A crawl service (here a stub) returns a list
of link records. The page keeps a history of crawls, most recent first, and persists it in browser
storage. It shows the selected crawl's records through a status/search filter, and a sidebar lists
the history grouped by date.

This project models the four pieces of that page that carry logic:

- `results_display.dfy` (module `ResultsDisplay`): the filter over a crawl's link records ('all',
  'broken' or 'ok', plus a case-insensitive search term), and the working/broken counts.
- `actions.dfy` (module `Actions`): the mock `crawlWebsite`, a pure function from the root URL to
  nine link records.
- `link_checker.dfy` (module `LinkChecker`): URL normalisation, the first-match lookup by id, and the
  component state as a class `Store`. Its fields are `crawlHistory`, `currentCrawl`, `isLoading`,
  `storage` (the persisted history) and `viewRef` (the `?id=` query parameter). Its methods are the
  load effect, the save effect, mounting, `handleSubmit` and `handleHistoryItemClick`.
- `sidebar.dfy` (module `Sidebar`): the loop that groups the history by a date key, and the
  highlight test for the selected entry.
- `records.dfy`, `text.dfy`, `seqs.dfy`: the shared records, ASCII lower-casing with prefix and
  substring tests, and a deletion-based subsequence predicate.

Abstractions:

- The clock (`Date.now()`, `toISOString()`) becomes the `now` and `date` parameters of `Submit`.
- Whether the crawl call is rejected becomes the `failed` parameter.
- Browser storage is the field `storage: Option<seq<CrawlResult>>`. `None` means the key is absent.
- The router is the field `viewRef`. `router.push("?id=" + id)` sets it.
- The locale-dependent `toLocaleDateString` is the function parameter `dateKey`.

The status test and the search test combine with AND. The callback returns `false` for a status
mismatch (`results-display.tsx:34-35`) before it looks at the term (`results-display.tsx:38-41`), so a
record that matches the term is still hidden when its status does not fit the mode. `Keeps`,
`FilteredMembership` and `SearchDoesNotOverrideStatus` state this.

`handleSubmit` does not check `isLoading`. Only the disabled input and button (`link-checker.tsx:138`,
`link-checker.tsx:140`) prevent a second submission, so `Submit` has no such check.

## Model

| member | source | states |
|---|---|---|
| `ResultsDisplay.FilteredResults` | src/components/results-display.tsx:32-45 | the filtered list is never longer than the input |
| `ResultsDisplay.View` | src/components/results-display.tsx:28-45 | total is the input length and working + broken = total; the shown list is an order-preserving subsequence of the input; with 'all' and an empty term it is the input |
| `ResultsDisplay.CountsPartition` | src/components/results-display.tsx:28-29 | brokenCount + workingCount equals the number of results |
| `ResultsDisplay.CountsIgnoreFilterState` | src/components/results-display.tsx:28-29 | the three badge counts are the same for every filter mode and search term |
| `ResultsDisplay.Keeps` | src/components/results-display.tsx:32-45 | the callback keeps a record iff it passes the status test AND (the term is empty OR it matches the search) |
| `ResultsDisplay.WithOk` | src/components/results-display.tsx:28-29 | the status-only filter of the two counts is never longer than the input and holds only records with the wanted `ok` |
| `ResultsDisplay.WithOkSnoc` | src/components/results-display.tsx:28-29 | filtering a list extended by one record extends the filtered list by that record exactly when it has the wanted `ok` |
| `ResultsDisplay.WithOkEmptyIff` | src/components/results-display.tsx:28-29 | the status-only filter is empty iff no input record has the wanted `ok` |
| `ResultsDisplay.BrokenCount` | src/components/results-display.tsx:28 | brokenCount is at most the number of results, and it is 0 iff every record is ok |
| `ResultsDisplay.WorkingCount` | src/components/results-display.tsx:29 | workingCount is at most the number of results, and it is 0 iff no record is ok |
| `ResultsDisplay.FilteredIsSubsequence` | src/components/results-display.tsx:32-45 | the output is obtained from the input by deleting records, so the original order is kept |
| `ResultsDisplay.FilteredMembership` | src/components/results-display.tsx:32-44 | a record is in the output iff it is in the input, passes the status test, and the term is empty or the lower-cased url or sourceUrl contains the lower-cased term |
| `ResultsDisplay.FilteredMultiplicity` | src/components/results-display.tsx:32-45 | a record the callback keeps occurs in the output exactly as often as in the input, and a rejected record not at all |
| `ResultsDisplay.StatusFilterSound` | src/components/results-display.tsx:34-35 | with 'broken' every shown record has ok = false, with 'ok' every shown record has ok = true, for any term |
| `ResultsDisplay.SearchDoesNotOverrideStatus` | src/components/results-display.tsx:34-41 | in any result list, a working record that matches the term is still hidden under 'broken' |
| `ResultsDisplay.AllWithoutSearchIsIdentity` | src/components/results-display.tsx:32-45 | with 'all' and an empty term the output equals the input |
| `ResultsDisplay.StatusOnlyMatchesCounts` | src/components/results-display.tsx:28-35 | with an empty term, 'broken' shows exactly the broken records (as many as brokenCount) and 'ok' exactly the working ones (as many as workingCount) |
| `ResultsDisplay.SearchIgnoresCase` | src/components/results-display.tsx:38-41 | two terms that differ only in ASCII letter case give the same output |
| `Text.LowerOfSameIgnoringCase` | src/components/results-display.tsx:39-41 | terms that differ only in ASCII case have the same lower-cased form |
| `Actions.CrawlWebsite` | src/lib/actions.ts:10-67 | nine records; ok iff status is 200; every status is 200, 404 or 500; every sourceUrl starts with the input; the first six urls are the input, "/" and a non-empty path; the last three are the fixed external urls |
| `Actions.CountsOfOkColumn` | src/lib/actions.ts:10-65 | any nine records whose ok flags follow the mock list's column hold 5 working and 4 broken records |
| `Actions.CrawlCounts` | src/lib/actions.ts:10-65 | for every root url, exactly 5 records are working and 4 are broken |
| `Actions.ExternalLinksFixed` | src/lib/actions.ts:47-64 | the last three urls are the same for any two inputs |
| `LinkChecker.NormalizeUrl` | src/components/link-checker.tsx:76-79 | the result starts with http:// or https://; an input that already does is unchanged; any other input becomes "https://" + input |
| `LinkChecker.NormalizeIdempotent` | src/components/link-checker.tsx:78-79 | normalising twice is the same as normalising once |
| `LinkChecker.FindById` | src/components/link-checker.tsx:103 | finds an entry iff some history entry has the id; the entry found has the id and no earlier entry has it |
| `LinkChecker.Store.constructor` | src/components/link-checker.tsx:34-37 | a new page has an empty history, no crawl on display and is not loading |
| `LinkChecker.Store.Load` | src/components/link-checker.tsx:40-57 | the history becomes the stored history only when storage holds one; the crawl on display becomes the first stored entry with the `?id=` value only when that value is present, non-empty and matches; otherwise it is untouched |
| `LinkChecker.Store.Save` | src/components/link-checker.tsx:60-65 | the guard never fires: afterwards the persisted copy equals the history |
| `LinkChecker.Store.Mount` | src/components/link-checker.tsx:39-65 | after the two effects the history is the stored one when storage holds one; the crawl on display is the first stored entry named by a present, non-empty `?id=` when there is one, and otherwise unchanged; the persisted copy equals the history; from a page with nothing on display the store invariant holds |
| `LinkChecker.Store.Submit` | src/components/link-checker.tsx:67-100 | an empty url changes nothing; on failure history, display, storage and view are unchanged; on success the new crawl (given id and date, normalised url, the service's records) is prepended, displayed and persisted, and it becomes the view reference; in both outcomes isLoading is false afterwards; the store invariant is preserved |
| `LinkChecker.Store.HistoryItemClick` | src/components/link-checker.tsx:102-109 | a known id displays the first entry with it and becomes the view reference; an unknown id changes nothing; the store invariant is preserved |
| `LinkChecker.CurrentIsInHistory` | src/components/link-checker.tsx:102-108 | under the store invariant, the crawl on display is a history entry carrying the `?id=` value |
| `LinkChecker.SubmitExample` | src/components/link-checker.tsx:67-100 | submitting "example.com" on a fresh page gives a one-entry history for "https://example.com" with 9 records (5 working, 4 broken); the entry is displayed, persisted, and is the view reference |
| `Sidebar.GroupKeys` | src/components/sidebar.tsx:26-30 | `Object.keys(groupedHistory)`: no more keys than entries, and each key is the date key of some entry |
| `Sidebar.GroupItems` | src/components/sidebar.tsx:29-32 | `groupedHistory[key]`: no longer than the history, and every entry in it has that date key |
| `Sidebar.GroupStep` | src/components/sidebar.tsx:27-32 | one pass of the loop body: entry i adds its date key when it is new and is appended to that key's group only |
| `Sidebar.GroupHistory` | src/components/sidebar.tsx:24-33 | the loop yields each date key once, in first-occurrence order, and maps each key to the entries with that key in history order; no group is empty; no history gives no keys |
| `Sidebar.NonEmptyIffKey` | src/components/sidebar.tsx:29-32 | a key's group is non-empty iff the key is a group key |
| `Sidebar.KeysDistinct` | src/components/sidebar.tsx:29-30 | no key appears twice among the group keys |
| `Sidebar.KeysAreItemKeys` | src/components/sidebar.tsx:26-30 | the group keys are exactly the date keys of the history entries |
| `Sidebar.GroupMembership` | src/components/sidebar.tsx:26-33 | an entry is in a group iff it is in the history and the group's key is its own date key, so it is in exactly one group |
| `Sidebar.GroupKeepsOrder` | src/components/sidebar.tsx:32 | each group is a subsequence of the history, so its entries keep their relative order |
| `Sidebar.GroupsPartitionHistory` | src/components/sidebar.tsx:26-33 | the group sizes sum to the history length |
| `Sidebar.EmptyHistoryNoGroups` | src/components/sidebar.tsx:81-117 | there are no groups iff the history is empty, which is when "No crawl history yet" is shown |
| `Sidebar.IsHighlighted` | src/components/sidebar.tsx:100 | an entry is highlighted only when a selected id is present and equals the entry's id; with no selected id nothing is highlighted |
| `Sidebar.SelectedCrawlIsHighlighted` | src/components/sidebar.tsx:100 | an entry is highlighted iff its id equals the selected id; nothing is highlighted without a selection; the crawl the selected id finds is highlighted inside the group of its own date key |

## Left out

- Rendering, styling and the UI toggles (`isFiltersOpen`, `isOpen`, `isMobileOpen`) are not modelled, and neither is the page scaffolding `src/app/page.tsx`. They hold no logic.
- `JSON.stringify`/`JSON.parse` and `localStorage` are not modelled. Storage holds the history as a value and no JSON round-trip is claimed. Any stored text, including `"[]"`, counts as present; the never-produced empty string is not distinguished.
- The router and `useSearchParams` are replaced by the `viewRef` field.
- React's effect scheduling is not modelled, including the re-run of the load effect when `?id=` changes. `Mount` runs the load effect and then the save effect. The save of the initial empty history on first render is overwritten at once by the next save, so it is folded into that save. As a consequence, `ViewConsistent()` and `Valid()` are invariants of the modelled operations only, not of the page. Navigating to a location without `?id=`, or to a stale id, re-runs the load effect; it returns early (`link-checker.tsx:49-50`) or finds nothing (`link-checker.tsx:54`) and never clears `currentCrawl`. The page then shows a crawl that `?id=` does not name, and the sidebar highlights nothing. `CurrentIsInHistory` does not cover that case.
- The clock is not modelled; the id and the date of a new crawl are parameters.
- The two-second delay and the `async`/`await` of `crawlWebsite` are not modelled. A submission runs to its outcome in one step, so `isLoading == true` is never seen between calls. The reason a crawl call may fail is abstracted into the `failed` flag, and the URL entry field (`setUrl`) is the `url` parameter.
- `console.error` on failure is not modelled; it is output only.
- Sidebar display formatting is not modelled. This covers `toLocaleDateString` (the abstract `dateKey`), the `split`/`parseInt`/`format` of the group heading including its month offset at `sidebar.tsx:86`, and `new URL(...).hostname`.
- `GroupHistory`: group order follows JavaScript's insertion order for non-integer keys. The reordering that `Object.keys` applies to integer-like keys is not modelled; locale date strings are not integer-like.
- `toLowerCase` is modelled on ASCII letters only; other Unicode case mappings are out of scope.
