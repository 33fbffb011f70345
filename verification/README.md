# Raburn résumé site — the data logic, modelled in Dafny

The site is a personal résumé with a "vinyl dashboard" of the owner's
record collection. Under its React surface it has a small amount of
deterministic logic, and this project models that logic and proves what it
promises. The pieces are:

- the Discogs record normaliser and aggregator (`toYear`, `clean`, `pick`,
  `splitMulti`, `normalizeFormat`, the API and CSV normalisers, `summarize`,
  `sortMap`, `topN` and `toChart`);
- the serverless function that reads a user's whole Discogs collection page
  by page;
- the dashboard helpers:
  - durations, and row cleaning with hand-entered overrides;
  - the filter state kept in the query string;
  - artist keys, the row filter, and the year, label, artist and
    longest-track aggregates;
  - the label and artist toggles, the year steppers, the preset chips and
    the year-bar click;
- the chart label helpers: palette interleave, colour by index,
  abbreviation, greedy word wrap with ellipsis, and tick font size;
- the rotary knob control (range, clamp, snap, keyboard, wheel and drag
  angle);
- the status-log ticker (message pick, rolling window, typewriter tick);
- the experience folder tab's period parser, and the ordinal and exhibit
  labels.

The model is purely functional: immutable datatypes, sequences, maps kept as
association lists, and total functions. The network, timers, clocks and
randomness become parameters.

Files, one module each:

| file | module | models |
|---|---|---|
| wrappers.dfy | `Wrappers` | `Option` |
| text.dfy | `Text` | ASCII character classes, lower-casing, trimming, whitespace collapsing, `split`/`join`, `parseInt`, `String(n)`, `padStart` |
| seqs.dfy | `Seqs` | filter, take, counting, and the stable sort by an integer key (JavaScript's `Array.prototype.sort` is stable) |
| count_map.dfy | `CountMap` | the `Map`-based counters: an insertion-ordered list of (key, count) entries |
| normalize.dfy | `Normalize` | `toYear`, `clean`, `pick`, `splitMulti`, `normalizeFormat`, `normalizeFromApi`, `normalizeFromCsv` |
| summary.dfy | `Summary` | `summarize`, `sortMap`, `topN`, `toChart` |
| collection_fetch.dfy | `CollectionFetch` | the `discogs-collection` function |
| dashboard.dfy | `Dashboard` | `toSecs`, the `m:ss` format, row cleaning, defaults, URL state, `clamp`, steppers, presets, `onYearBarClick` |
| dashboard_views.dfy | `DashboardViews` | `normalizeArtist`, `filtered`, `yearBuckets`, `labelCounts`, `artistCounts`, `topArtists`, `longest`, `toggleLabel`, `toggleArtist` |
| chart_theme.dfy | `ChartTheme` | `SPREAD`, `colorByIndex`, `abbreviate`, `wrapText`, `LeftTick`'s font size |
| retro_knob.dfy | `RetroKnob` | the `RetroKnob` arithmetic |
| log_ticker.dfy | `LogTicker` | `pickRandomMessage` and the two `setLogs` reducers |
| folder_tab.dfy | `FolderTab` | `FolderTab` and the ordinal and exhibit labels |

Two behaviours of the code worth stating plainly:

- `clean` removes only the parenthesised group, so "Columbia Records (2)"
  cleans to "Columbia Records" (`Normalize.CleanColumbiaExample`). A group
  between two words goes together with the whitespace on both sides, so
  "Simon (2) Garfunkel" cleans to "SimonGarfunkel"
  (`Normalize.CleanSimonGarfunkelExample`).
- Later pages are fetched one after another, and fetching stops at the
  first page that is not `ok` (`CollectionFetch.FetchFrom`).

## Model

| member | source | states |
|---|---|---|
| Text.ParseInt | src/pages/VinylDashboard.jsx:46 | `parseInt(s, 10)`: the result is NaN only when no digit follows the leading whitespace and optional sign; otherwise it is the value of that digit run, negated after a '-' |
| Text.ParseIntSigned | src/pages/VinylDashboard.jsx:46-47 | whitespace, an optional '+' or '-', digits, then anything not starting with a digit reads as the digits' value, negated after '-' |
| Text.ParseIntDigits | src/pages/VinylDashboard.jsx:46-47 | a digit run followed by a non-digit reads as the run's value; the rest of the text is ignored |
| Text.ParseIntToString | src/pages/VinylDashboard.jsx:59-61 | `parseInt(String(n), 10)` gives back every integer n |
| Text.JoinSplitOn | src/App.jsx:36 | joining the pieces of a split with the separator gives back the text |
| Text.SplitOnJoin | src/pages/VinylDashboard.jsx:62-63 | splitting a '|'-join of '|'-free parts gives back exactly the parts |
| CountMap.TallyCounts | src/components/DiscogsCollectionPanel.jsx:376 | the count a `Map` counter holds for a key is the number of times the key was seen (0 if never) |
| CountMap.TallyKeys | src/components/DiscogsCollectionPanel.jsx:376 | a key has an entry exactly when it was seen |
| CountMap.TallyFirstSeenOrder | src/components/DiscogsCollectionPanel.jsx:403 | the entries come in the order their keys were first seen, which is `Map` iteration order |
| CountMap.TallySum | src/components/DiscogsCollectionPanel.jsx:380 | the counts add up to the number of keys fed in |
| CountMap.TallySize | src/components/DiscogsCollectionPanel.jsx:398 | the number of entries is the number of distinct keys (the size of the matching `Set`) |
| Seqs.SortBy | src/components/DiscogsCollectionPanel.jsx:412 | sorting gives a permutation of the input ordered by the key |
| Seqs.SortByStable | src/components/DiscogsCollectionPanel.jsx:412 | the sort is stable: the entries with any one key value keep their input order |
| Seqs.TakeSortedDominates | src/components/DiscogsCollectionPanel.jsx:416-417 | an entry cut off by `slice(0, n)` after sorting ranks no higher than any kept entry |
| Normalize.ToYear | src/components/DiscogsCollectionPanel.jsx:322-331 | missing input, and input with no run of four digits, give no year; any year given lies in 1900..2100 |
| Normalize.ToYearFirstRun | src/components/DiscogsCollectionPanel.jsx:326-329 | only the first run of four digits counts: its value if in 1900..2100, otherwise no year, and no later run is tried |
| Normalize.ToYearLeadingYear | src/components/DiscogsCollectionPanel.jsx:322-331 | a text that starts with an in-range year, such as "1977-03-02", gives that year whatever follows it ("19771" gives 1977) |
| Normalize.Floor10 | src/components/DiscogsCollectionPanel.jsx:284 | the decade start is the multiple of ten at or below the year, within ten of it |
| Normalize.Clean | src/components/DiscogsCollectionPanel.jsx:332-334 | the cleaned name has no leading or trailing whitespace, no whitespace runs, and no "(...)" pair; a name without '(' is only collapsed and trimmed |
| Normalize.CleanIdempotent | src/components/DiscogsCollectionPanel.jsx:332-334 | cleaning twice is cleaning once |
| Normalize.CleanDropsTrailingGroup | src/components/DiscogsCollectionPanel.jsx:333 | "name (x)" cleans to the name, for a clean name without '(' and a one-word x |
| Normalize.CleanColumbiaExample | src/components/DiscogsCollectionPanel.jsx:333 | "Columbia Records (2)" cleans to "Columbia Records" |
| Normalize.CleanDropsMiddleGroup | src/components/DiscogsCollectionPanel.jsx:333 | a one-word group between two names goes with the whitespace on both sides: "a (x) b" cleans to "ab" |
| Normalize.CleanSimonGarfunkelExample | src/components/DiscogsCollectionPanel.jsx:333 | "Simon (2) Garfunkel" cleans to "SimonGarfunkel" |
| Normalize.Pick | src/components/DiscogsCollectionPanel.jsx:335-340 | no value exactly when every listed header is missing or ""; otherwise the value of the earliest header that has one |
| Normalize.SplitMulti | src/components/DiscogsCollectionPanel.jsx:341-348 | missing or "" input gives []; every piece is non-empty, trimmed and free of ',' and ';' |
| Normalize.SplitMultiConcat | src/components/DiscogsCollectionPanel.jsx:345-347 | splitting at a separator gives the pieces of the left side followed by those of the right, so pieces keep input order |
| Normalize.SplitMultiEach | src/components/DiscogsCollectionPanel.jsx:345-347 | splitting on separator runs equals splitting on each separator, trimming, and dropping empty pieces |
| Normalize.NormalizeFormat | src/components/DiscogsCollectionPanel.jsx:349-360 | missing or "" gives null; the result is a canonical name or the input as written; the word "lp" always gives "LP"; a non-canonical result means no rule's keyword matched, and any input that matches no rule is returned as written |
| Normalize.NormalizeFormatRules | src/components/DiscogsCollectionPanel.jsx:352-358 | the rules apply in order: 12", 7" and 10" (with or without the inch mark), then "cd", then "cassette" or "tape" (Cassette), then "file" or "digital" (Digital), each only when every earlier rule fails |
| Normalize.NormalizeFormatLeadingLp | src/components/DiscogsCollectionPanel.jsx:352 | a format starting with the word "LP" (any case) is "LP" |
| Normalize.NormalizeFormatLpExample | src/components/DiscogsCollectionPanel.jsx:352 | "LP, Gatefold" is "LP" |
| Normalize.NormalizeFormatFallback | src/components/DiscogsCollectionPanel.jsx:359 | a format missing a letter of every keyword is returned as written, not lower-cased |
| Normalize.NormalizeFormatBoxSetExample | src/components/DiscogsCollectionPanel.jsx:359 | "Box Set" is returned as "Box Set" |
| Normalize.ClassifyAllCount | src/components/DiscogsCollectionPanel.jsx:288-289 | classifying and dropping nulls keeps one format for each present, non-empty source string |
| Normalize.FormatSourcesCount | src/components/DiscogsCollectionPanel.jsx:287 | the format sources are each format's name, if present, then its descriptions |
| Normalize.CleanNames | src/components/DiscogsCollectionPanel.jsx:285 | the result is every name cleaned, in order, with the empty results dropped |
| Normalize.ClassifyAll | src/components/DiscogsCollectionPanel.jsx:286-289 | the i-th format is the classification of the i-th present, non-empty source, so there is one per such source |
| Normalize.NormalizeFromApi | src/components/DiscogsCollectionPanel.jsx:279-294 | the decade exists exactly when the year does and is its decade; country is always missing; the title is passed through; labels and artists are the names cleaned with empty results dropped; formats are the classifications of every format name and description, in order |
| Normalize.ApiYearInRange | src/components/DiscogsCollectionPanel.jsx:281 | an API year in 1900..2100 is kept as the record's year |
| Normalize.NormalizeFromCsv | src/components/DiscogsCollectionPanel.jsx:296-320 | no record exactly when artist, title and label are all missing; year from the first present date header; decade consistent with year; title and country present exactly when their headers are, and then trimmed; labels and artists are the split cell's pieces cleaned with empty results dropped; the i-th format is the classification of the i-th piece of the format cell |
| Normalize.PresentPieces | src/components/DiscogsCollectionPanel.jsx:306 | every split format piece is non-empty, so it reaches `normalizeFormat` |
| Normalize.PresentValuesWrap | src/components/DiscogsCollectionPanel.jsx:306 | the split pieces are exactly the sources that reach `normalizeFormat`, in order |
| Summary.ArtistKey | src/components/DiscogsCollectionPanel.jsx:384 | the artist key is a prefix of the name: the name itself when no " (...)" group ends it, otherwise the name cut at the first place such a group starts |
| Summary.ArtistKeyOfClean | src/components/DiscogsCollectionPanel.jsx:384 | on a cleaned name (no "(...)" pair) the key is the name |
| Summary.ArtistKeyDropsGroup | src/components/DiscogsCollectionPanel.jsx:384 | "name (x)" keys as the name |
| Summary.YearKeysParse | src/components/DiscogsCollectionPanel.jsx:401 | every `byYear` key `String(year)` parses back to its year, so the numeric sort orders by year |
| Summary.TopN | src/components/DiscogsCollectionPanel.jsx:415-418 | at most n entries, taken from the map, with non-increasing counts |
| Summary.TopNDominates | src/components/DiscogsCollectionPanel.jsx:415-418 | an entry left out of the top n has a count no larger than any kept one |
| Summary.TopNStable | src/components/DiscogsCollectionPanel.jsx:416 | entries with equal counts keep their first-seen order |
| Summary.SortTwiceByCount | src/components/DiscogsCollectionPanel.jsx:405 | sorting by count again (as `topN` does after `sortMap`) changes nothing |
| Summary.MedianYear | src/components/DiscogsCollectionPanel.jsx:390-391 | no median exactly when there are no years; otherwise one of the years |
| Summary.MedianSplits | src/components/DiscogsCollectionPanel.jsx:390-391 | the median is the upper middle: at most half the years are earlier, more than half are not later |
| Summary.AvgYear | src/components/DiscogsCollectionPanel.jsx:392-394 | no average exactly when there are no years; otherwise within 0.05 of the mean |
| Summary.Summarize | src/components/DiscogsCollectionPanel.jsx:362-408 | total is the item count; unique artists is the number of distinct keys; `byYear` and `byDecade` hold the tallies in ascending numeric order; `byFormat` keeps insertion order; the top lists hold at most 15 entries and are the 15 highest counts of the country, label and artist tallies (sorting the labels and artists first changes nothing); median and average are those of the known years |
| Summary.SummaryCounts | src/components/DiscogsCollectionPanel.jsx:376 | each `byYear` count is the number of items with that year |
| Summary.ByYearTotal | src/components/DiscogsCollectionPanel.jsx:374-378 | the `byYear` counts add up to the number of items that have a year |
| Summary.ToChart | src/components/DiscogsCollectionPanel.jsx:419-421 | one chart point per entry, same order, name and value |
| CollectionFetch.PageCount | netlify/functions/discogs-collection.ts:44 | a missing or zero page count is read as 1; any other count is kept |
| CollectionFetch.FetchFrom | netlify/functions/discogs-collection.ts:49-62 | pages are requested one at a time in increasing order, never past the page count |
| CollectionFetch.FetchAllOk | netlify/functions/discogs-collection.ts:46-58 | when every page answers, all their releases are gathered in page order and every page is requested once |
| CollectionFetch.FetchStopsAtFailure | netlify/functions/discogs-collection.ts:53-56 | the first failed page k ends the loop: pages before k are kept, nothing after k is requested |
| CollectionFetch.Lite | netlify/functions/discogs-collection.ts:65-69 | the projection keeps length and order and keeps only id, instance id and basic information |
| CollectionFetch.CrashResponse | netlify/functions/discogs-collection.ts:74-75 | an exception gives 500 with its message, or "Server error" when it has none |
| CollectionFetch.Handle | netlify/functions/discogs-collection.ts:21-77 | a missing username gives 400 before the token is looked at; no token gives 500; pages are requested as 1, 2, ... in order; success is exactly the case where no exception arises, and carries status 200 and the JSON and cache headers; an exception on the first or a later page answers 500 with its message |
| CollectionFetch.FirstPageFailurePassesThrough | netlify/functions/discogs-collection.ts:41 | a failed first page returns its status and text unchanged, and nothing else is requested |
| CollectionFetch.AllPagesGathered | netlify/functions/discogs-collection.ts:43-73 | when every page answers, the response is 200 with all releases, in page order, projected |
| CollectionFetch.PartialOnLaterFailure | netlify/functions/discogs-collection.ts:49-56 | a failure at page k ≥ 2 still gives 200, with exactly the releases of pages 1..k-1 |
| CollectionFetch.FetchCrashesAt | netlify/functions/discogs-collection.ts:49-62 | an exception at page k ends the loop with its message; nothing after k is requested |
| CollectionFetch.CrashOnLaterException | netlify/functions/discogs-collection.ts:74-75 | an exception at page k ≥ 2 answers 500 with its message (or "Server error"), discarding the pages gathered |
| Dashboard.ToSecs | src/pages/VinylDashboard.jsx:41-51 | null and non-finite values give null; a finite number is returned unchanged |
| Dashboard.FromParts | src/pages/VinylDashboard.jsx:45-48 | a string has a length exactly when its minutes piece reads as a number; a bare minutes piece gives minutes times 60 |
| Dashboard.ToSecsMinutesSeconds | src/pages/VinylDashboard.jsx:44-48 | "m:s" gives m*60+s |
| Dashboard.ToSecsMinutesOnly | src/pages/VinylDashboard.jsx:47-48 | a bare "m" gives m*60 |
| Dashboard.ToSecsUnreadableSeconds | src/pages/VinylDashboard.jsx:48 | unreadable seconds count as 0 |
| Dashboard.ToSecsUnreadableMinutes | src/pages/VinylDashboard.jsx:48-50 | unreadable minutes give null |
| Dashboard.FormatDuration | src/pages/VinylDashboard.jsx:691-692 | a non-negative length is printed ending in ':' and exactly two digits |
| Dashboard.ToSecsFormatDuration | src/pages/VinylDashboard.jsx:691-692 | reading a formatted length back with `toSecs` gives the seconds again, for every non-negative length |
| Dashboard.CleanRow | src/pages/VinylDashboard.jsx:104-121 | a hand-entered duration for "artist\|\|\|title" wins over the row's own; otherwise the row's length is kept; the labels become a list (one value becomes a singleton, a missing or empty one becomes []) |
| Dashboard.CleanRowWho | src/pages/VinylDashboard.jsx:31 | The Who's "5:15" gets 300 seconds whatever the row says |
| Dashboard.CleanRowNoOverride | src/pages/VinylDashboard.jsx:110 | without an override the row keeps its own length |
| Dashboard.YearDomain | src/pages/VinylDashboard.jsx:129-132 | the domain covers every known year and 1960..1985, and each end is 1960/1985 or an actual year |
| Dashboard.DefaultsOf | src/pages/VinylDashboard.jsx:134-143 | the default range contains 1960..1985 and every known year (unless some year is 0), and `dmax` is 31 |
| Dashboard.ParseNumToString | src/pages/VinylDashboard.jsx:59-61 | a number written with `String` and read back with `parseInt` is unchanged, `NaN` included |
| Dashboard.DecodeList | src/pages/VinylDashboard.jsx:62-63 | a missing or empty list parameter gives []; every decoded entry is non-empty and free of '\|' |
| Dashboard.DecodeNum | src/pages/VinylDashboard.jsx:59-61 | a missing number is its default; a present one is NaN exactly when `parseInt` fails, and otherwise its value |
| Dashboard.Decode | src/pages/VinylDashboard.jsx:57-65 | a missing number falls back to its default; list entries are non-empty and free of '\|' |
| Dashboard.Encode | src/pages/VinylDashboard.jsx:69-74 | the three numbers are always written; each list is written exactly when it is non-empty |
| Dashboard.EncodeFields | src/pages/VinylDashboard.jsx:70-74 | each written field is the number's `String` or the list joined with '\|' |
| Dashboard.DecodeJoin | src/pages/VinylDashboard.jsx:62-63 | a '\|'-joined list of non-empty, '\|'-free entries decodes to the list |
| Dashboard.DecodeEncode | src/pages/VinylDashboard.jsx:55-79 | decoding an encoded state gives the state back, for lists of non-empty, '\|'-free entries |
| Dashboard.Merge | src/pages/VinylDashboard.jsx:68 | `{ ...state, ...patch }`: each of the five fields takes the patch's value when the patch has one and keeps the state's otherwise |
| Dashboard.SetState | src/pages/VinylDashboard.jsx:67-76 | after `setState(patch)` the page reads back the old state with the patch applied |
| Dashboard.Clamp | src/pages/VinylDashboard.jsx:53 | with lo ≤ hi the result lies in [lo, hi], equals v when v already does, is hi when v is above and lo when v is below; NaN anywhere gives NaN; with hi < lo it is lo |
| Dashboard.Step | src/pages/VinylDashboard.jsx:314 | the start steppers patch only `ymin`, the end steppers only `ymax` |
| Dashboard.StepKeepsRange | src/pages/VinylDashboard.jsx:314-353 | when defaults.ymin ≤ ymin ≤ ymax ≤ defaults.ymax holds, every stepper keeps it, moves one end by at most one, and leaves the other end alone |
| Dashboard.StepStopsAtBounds | src/pages/VinylDashboard.jsx:314-326 | the start stepper stops at the default minimum and at the end year, and otherwise moves up by one |
| Dashboard.StepKeepsNaN | src/pages/VinylDashboard.jsx:314 | a NaN year stays NaN under every stepper |
| Dashboard.Presets | src/pages/VinylDashboard.jsx:363-367 | four presets, the last the full default range |
| Dashboard.PresetsInRange | src/pages/VinylDashboard.jsx:363-374 | every preset chip sets a range inside the default range |
| Dashboard.YearBarClick | src/pages/VinylDashboard.jsx:244-252 | a click without a label changes nothing; a click changes only the year range |
| Dashboard.YearBarClickTwice | src/pages/VinylDashboard.jsx:244-252 | clicking a year selects just that year, and clicking it again restores the default range |
| DashboardViews.LastComma | src/pages/VinylDashboard.jsx:158 | the position of the last ',' (the greedy `(.*),` of the pattern), or none when there is no comma |
| DashboardViews.ArticleSplitSound | src/pages/VinylDashboard.jsx:158 | a match splits the name as "rest," then whitespace then The/A/An, ending the name |
| DashboardViews.ArticleSplitMatches | src/pages/VinylDashboard.jsx:158 | every "rest, The" (any case, any spacing) matches with those parts |
| DashboardViews.ArticleSplitNoComma | src/pages/VinylDashboard.jsx:158 | a name without a comma does not match |
| DashboardViews.NormalizeArtist | src/pages/VinylDashboard.jsx:155-161 | the key is lower-case, trimmed and single-spaced; an empty name gives ""; a name without a comma is trimmed, whitespace-collapsed and lower-cased |
| DashboardViews.MoveArticle | src/pages/VinylDashboard.jsx:158 | a name without a comma is unchanged, and moving never lengthens the name |
| DashboardViews.MoveArticleFront | src/pages/VinylDashboard.jsx:158 | "p, The" (any spacing after the comma, any case) becomes "The p" |
| DashboardViews.NormalizeArtistArticle | src/pages/VinylDashboard.jsx:155-161 | "Beatles, The" and "The Beatles" get the same key |
| DashboardViews.KeepAdmits | src/pages/VinylDashboard.jsx:194-210 | the row test holds exactly when a known year is in range, a known length is at most `dmax` minutes, the artist matches a selected one by key, and some label is selected (an empty selection imposes nothing) |
| DashboardViews.Filtered | src/pages/VinylDashboard.jsx:188-211 | the result is a subsequence of the data; it holds every admitted row as many times as the data does and no other row |
| DashboardViews.RowYearsCount | src/pages/VinylDashboard.jsx:216 | one year is counted for each row that has one |
| DashboardViews.YearBuckets | src/pages/VinylDashboard.jsx:213-221 | the buckets are the year tally, sorted by year |
| DashboardViews.YearBucketsAscending | src/pages/VinylDashboard.jsx:219 | the years are strictly ascending |
| DashboardViews.YearBucketsTotal | src/pages/VinylDashboard.jsx:213-221 | the bucket counts add up to the number of rows that have a year |
| DashboardViews.YearBucketsKeys | src/pages/VinylDashboard.jsx:216 | a year has a bucket exactly when some row has that year |
| DashboardViews.YearBucketCount | src/pages/VinylDashboard.jsx:216 | each bucket counts the rows with its year |
| DashboardViews.AllLabels | src/pages/VinylDashboard.jsx:149 | every label of every row is counted |
| DashboardViews.LabelCounts | src/pages/VinylDashboard.jsx:147-153 | the label tally with distinct names, ordered by non-increasing count |
| DashboardViews.LabelCountsEntry | src/pages/VinylDashboard.jsx:149 | each label's count is the number of its occurrences |
| DashboardViews.AddArtist | src/pages/VinylDashboard.jsx:166-171 | one row bumps its key's count by one, adding the key at the end when new |
| DashboardViews.AddArtistName | src/pages/VinylDashboard.jsx:168-171 | the entry of a known key keeps its name unless the row's spelling is strictly longer; a new key starts with the row's spelling (the key when that is empty); other entries are untouched |
| DashboardViews.ArtistTotals | src/pages/VinylDashboard.jsx:163-172 | the per-key counts are the tally of the rows' non-empty artist keys, in first-seen order; each entry's name is a spelling from a row with its key, no shorter than any other such spelling, and the earliest among the longest |
| DashboardViews.ArtistTotalsCount | src/pages/VinylDashboard.jsx:166-169 | each artist's count is the number of rows with that key |
| DashboardViews.ArtistCounts | src/pages/VinylDashboard.jsx:173-175 | a permutation of the totals, by non-increasing count |
| DashboardViews.TopArtists | src/pages/VinylDashboard.jsx:223-234 | min(10, number of artists) artists, drawn from the totals, by non-increasing count |
| DashboardViews.TopArtistsDominate | src/pages/VinylDashboard.jsx:233 | an artist left out has a count no larger than any listed one |
| DashboardViews.Longest | src/pages/VinylDashboard.jsx:236-242 | min(10, number of rows with a length) rows, longest first |
| DashboardViews.LongestRows | src/pages/VinylDashboard.jsx:236-242 | the rows come from the input, all have a known length, and lengths do not increase |
| DashboardViews.LongestDominates | src/pages/VinylDashboard.jsx:236-242 | a row with a known length that is left out is no longer than any listed row |
| DashboardViews.ToggleLabel | src/pages/VinylDashboard.jsx:269-273 | the name is present afterwards exactly when it was absent; other labels keep membership and order |
| DashboardViews.ToggleLabelTwice | src/pages/VinylDashboard.jsx:269-273 | toggling an absent label twice restores the list |
| DashboardViews.ToggleArtist | src/pages/VinylDashboard.jsx:181-186 | an active artist is removed (what remains is a subsequence); an inactive one is appended |
| DashboardViews.IsArtistActiveAppend | src/pages/VinylDashboard.jsx:178-179 | after adding a name, a key is active exactly when it was already or is the new name's key |
| DashboardViews.ToggleArtistSwitches | src/pages/VinylDashboard.jsx:178-186 | toggling deactivates an active artist and activates an inactive one when the display name has that key |
| DashboardViews.ToggleArtistOthers | src/pages/VinylDashboard.jsx:181-186 | an artist with a different key is kept or left out as before |
| ChartTheme.SpreadInterleaves | src/charts/theme.js:17-24 | the spread lists p[k] then p[k + half] for each k, and is a permutation of the palette |
| ChartTheme.Spread | src/charts/theme.js:17-24 | every colour of the spread is a palette colour, and a non-empty palette's spread starts with its first colour |
| ChartTheme.SpreadOrder10 | src/charts/theme.js:16-24 | for ten colours the order is 0,5,1,6,2,7,3,8,4,9 |
| ChartTheme.SpreadOrder8 | src/charts/theme.jsx:17-24 | for eight colours the order is 0,4,1,5,2,6,3,7 |
| ChartTheme.BasePaletteSpread | src/charts/theme.js:12-24 | both palettes' spreads are permutations of them |
| ChartTheme.PalettesDistinct | src/charts/theme.js:12-15 | both palettes have pairwise distinct colours |
| ChartTheme.ColorByIndex | src/charts/theme.js:25 | a non-negative index i picks the colour at position i mod n of the spread palette |
| ChartTheme.ColorByIndexPeriodic | src/charts/theme.js:25 | the colours repeat with the palette's length as period |
| ChartTheme.ColorByIndexDistinct | src/charts/theme.js:25 | indices less than a period apart get different colours |
| ChartTheme.Abbreviate | src/charts/theme.js:38-42 | abbreviation never makes a label longer |
| ChartTheme.AbbreviateOnlyWholeWords | src/charts/theme.js:40 | text in which no listed word stands between two word boundaries is left unchanged |
| ChartTheme.AbbreviateInWordExample | src/charts/theme.js:40 | "XRecords" is kept: a listed word inside a longer word is not replaced |
| ChartTheme.AbbreviateNoCapitals | src/charts/theme.js:40 | a label without capitals is unchanged: the match is case-sensitive |
| ChartTheme.AbbreviateWord | src/charts/theme.js:40-41 | a listed word at a word start, followed by a non-word character or the end, becomes its abbreviation |
| ChartTheme.MatchUnique | src/charts/theme.js:40 | at most one listed word matches at a word boundary |
| ChartTheme.AbbreviateNonWord | src/charts/theme.js:40 | non-word characters are copied and start a new word |
| ChartTheme.WrapLoop | src/charts/theme.js:48-55 | the loop closes lines in order, never more than maxLines - 1 of them, each within the width or a single word |
| ChartTheme.WrapLines | src/charts/theme.js:44-56 | each line is within the width or a single word; at most maxLines lines when maxLines ≥ 2 |
| ChartTheme.WrapLinesWords | src/charts/theme.js:44-56 | for a label of single-space-separated words, the non-empty lines joined by spaces are its first j words, and the whole label when it has fewer words than the line limit |
| ChartTheme.WrapLoopWords | src/charts/theme.js:48-55 | each pass of the loop adds the next word to the text of the lines, and the loop stops only after a word |
| ChartTheme.WrapText | src/charts/theme.js:57-58 | "…" is added to the last line exactly when the joined lines are shorter than the label; nothing else changes; at most maxLines lines |
| ChartTheme.WrapTextWidth | src/charts/theme.js:48-58 | every line fits the width (the last plus the ellipsis) unless it is a single word |
| ChartTheme.WrapTextShortLabel | src/charts/theme.js:44-60 | a non-empty label no wider than the width that does not start with a space is one line, itself |
| ChartTheme.TickFontSize | src/charts/theme.js:63-68 | the font size is 11 exactly when some wrapped row is longer than maxChars, and 12 otherwise |
| ChartTheme.TickRows | src/charts/theme.js:62-65 | at most `lines` rows; every row but the last is within the width or a single word |
| ChartTheme.TickFontSizeShortLabel | src/charts/theme.js:62-68 | a label that fits after abbreviation is one row at size 12 |
| ChartTheme.TickFontSizeSmall | src/charts/theme.js:65 | the small size means some row is a single over-long word or the last row over the width by its ellipsis |
| RetroKnob.MakeKnob | src/RetroKnob.jsx:16-20 | the normalised range has lo ≤ hi |
| RetroKnob.MakeKnobFinite | src/RetroKnob.jsx:17-19 | finite bounds are ordered, swapping when min > max |
| RetroKnob.MakeKnobDefaults | src/RetroKnob.jsx:17-18 | a non-finite min becomes 0 and a non-finite max becomes lo + 1 |
| RetroKnob.Clamped | src/RetroKnob.jsx:22 | the value lies in [lo, hi]; an in-range value is kept; a missing one gives lo |
| RetroKnob.Angle | src/RetroKnob.jsx:25-28 | the angle lies in [-135, 135] and is -135 when the value sits at lo |
| RetroKnob.Round | src/RetroKnob.jsx:36 | `Math.round`: the integer n with x - 0.5 < n ≤ x + 0.5, so halves round up |
| RetroKnob.AngleMonotone | src/RetroKnob.jsx:25-28 | a larger clamped value never gives a smaller angle, so the dial turns one way between its ends |
| RetroKnob.AngleBounds | src/RetroKnob.jsx:25-28 | the angle lies in [-135, 135], is -135 at lo (also when lo = hi), and is 135 at hi when hi - lo is at least 1e-9 |
| RetroKnob.SnapStep | src/RetroKnob.jsx:35 | the snapping step is at least 1 |
| RetroKnob.StepBig | src/RetroKnob.jsx:87 | the page step is at least 5 |
| RetroKnob.Snap | src/RetroKnob.jsx:34-38 | snapping always lands in [lo, hi] |
| RetroKnob.SnapGridPoint | src/RetroKnob.jsx:34-38 | a multiple of the step inside the range snaps to itself |
| RetroKnob.SnapMonotone | src/RetroKnob.jsx:34-38 | snapping preserves order |
| RetroKnob.OnKeyDown | src/RetroKnob.jsx:89-96 | every handled key gives a value in [lo, hi]; other keys give none; Home gives lo and End gives hi |
| RetroKnob.KeysMoveInTheirDirection | src/RetroKnob.jsx:90-93 | down keys never raise and up keys never lower the snapped value |
| RetroKnob.OnWheel | src/RetroKnob.jsx:98-102 | the wheel gives a value in [lo, hi] |
| RetroKnob.WholeNumberSteps | src/RetroKnob.jsx:90-101 | with integer bounds and step 1, ArrowUp gives min(hi, value + 1) and a downward wheel gives max(lo, value - 1) |
| RetroKnob.WholeNumberUpDown | src/RetroKnob.jsx:90-91 | below hi, ArrowUp then ArrowDown returns to the value |
| RetroKnob.SetFromDeg | src/RetroKnob.jsx:40-46 | a drag always sets a value in [lo, hi] |
| RetroKnob.SetFromDegEnds | src/RetroKnob.jsx:42-45 | angles at or past -135 give lo snapped, at or past 135 give hi snapped |
| LogTicker.PickMessage | src/LogTicker.jsx:30-37 | the message comes from the list and differs in text from the previous one (unless the list has one message); no message only when every draw repeated it |
| LogTicker.PickMessageFirstFresh | src/LogTicker.jsx:33-35 | the first draw with a new text is the one returned |
| LogTicker.PickFirstMessage | src/LogTicker.jsx:85 | with no previous text the first draw is taken |
| LogTicker.MessageTextsDistinct | src/LogTicker.jsx:3-23 | the messages have pairwise distinct texts, so "differs from the previous text" means "is another message" |
| LogTicker.NewRow | src/LogTicker.jsx:98 | a new row carries the message's level and text and has typed nothing yet |
| LogTicker.VisibleRows | src/LogTicker.jsx:64-73 | never below one row |
| LogTicker.VisibleRowsFit | src/LogTicker.jsx:72 | with a usable line height, more than one row is shown only when they fit, and one more would not |
| LogTicker.LastN | src/LogTicker.jsx:101 | `slice(-n)` is the last min(n, length) elements |
| LogTicker.Append | src/LogTicker.jsx:101 | after appending, the newest row is last and the window holds at most `visibleRows` rows |
| LogTicker.AppendKeepsNewest | src/LogTicker.jsx:101 | the rows kept before the new one are the newest of the old rows |
| LogTicker.AppendAllWindow | src/LogTicker.jsx:96-101 | appending rows one by one leaves exactly the last `visibleRows` of them |
| LogTicker.FindRow | src/LogTicker.jsx:114 | `findIndex`: the first row with the id, or none |
| LogTicker.TypeOne | src/LogTicker.jsx:116-119 | a tick types one more character of the text, capped at its length, and changes nothing else |
| LogTicker.Tick | src/LogTicker.jsx:113-124 | a tick changes only the typing row, leaves the list unchanged when it has scrolled out, reports when it is done, and keeps every typed text a prefix of its text |
| LogTicker.TickProgress | src/LogTicker.jsx:117-119 | a tick extends the typed prefix by exactly one character |
| LogTicker.TickCompletes | src/LogTicker.jsx:117-123 | after as many ticks as characters are left the row is fully typed, its text unchanged, and the tick reports completion |
| LogTicker.SameIds | src/LogTicker.jsx:118-119 | a tick keeps the typing row at the same index |
| LogTicker.Shown | src/LogTicker.jsx:162-170 | a row shows a prefix of its text: the typed part while typing, the whole text otherwise |
| LogTicker.TypingEnds | src/LogTicker.jsx:163 | the typing row is typing until its last character is typed; then it is not, and shows its whole text |
| FolderTab.At | src/App.jsx:36 | an index past the end of the pieces gives `undefined` |
| FolderTab.TabYears | src/App.jsx:36-38 | the tab throws exactly when the period has no " - "; a start year holds no '/', and an end year is "Now" or holds no '/' |
| FolderTab.TabYearsThrows | src/App.jsx:37-38 | the tab throws exactly when the period has no " - " |
| FolderTab.TabYearsRange | src/App.jsx:36-38 | "m1/y1 - m2/y2" shows y1 to y2 |
| FolderTab.TabYearsPresent | src/App.jsx:38 | "m/y - Present" shows y to "Now" |
| FolderTab.TabYearsCurrentJob | src/data/resumeData.js:36 | "09/2025 - Present" shows 2025 to "Now" |
| FolderTab.TabYearsPastJobs | src/data/resumeData.js:50-66 | "01/2021 - 08/2025" shows 2021 to 2025 and "02/2018 - 01/2021" shows 2018 to 2021 |
| FolderTab.Ordinal | src/App.jsx:69 | the label is all digits |
| FolderTab.OrdinalReadsBack | src/App.jsx:69 | up to 99 the label is exactly two digits; it always reads back as i + 1 |
| FolderTab.OrdinalInjective | src/App.jsx:69 | different achievements get different labels |
| FolderTab.ExhibitCode | src/App.jsx:453 | the letter is a UTF-16 code unit |
| FolderTab.ExhibitLetters | src/App.jsx:453 | the first 26 exhibits are lettered 'A' to 'Z' in order, the first 'A' |

## Left out

- Normalize.NormalizeFromApi: every label and artist is assumed to carry a
  name, as the function's type declares. A nameless entry would make `clean`
  throw and the whole load fail; the model cannot express one.
- JSX rendering, React hooks and effects, and the Recharts charts are
  presentation. `CoverMosaic`, `DeskClutter`, the jumping cat, the skills
  scroller and the boot sequence are outside the model.
- The network. `fetch`, the request URL with `encodeURIComponent`, the
  `Authorization` and `User-Agent` headers, JSON decoding and the 900 ms
  pause become the `upstream` parameter, which gives the outcome of each
  page request. An exception raised while reading a page is the `Thrown`
  outcome. The `DISCOGS_TOKEN` environment variable becomes the `token`
  parameter.
- CSV parsing (Papa.parse) and loading `fan500.json`. A CSV row is a map
  from header to string, and a loaded dashboard row is a `RawRow`.
- `Math.random`, `Date`, `uid()` and `ts()` in the log ticker. The random
  draws are a finite sequence of indices, and ids and timestamps come from
  the caller. Because the source keeps drawing forever, the model answers
  `None` when the given draws run out.
- Timers (`setTimeout`, `setInterval`), `ResizeObserver` and
  `getComputedStyle`. The measured heights are parameters of
  `LogTicker.VisibleRows`.
- Floating point. The knob uses exact reals. Durations and years are
  integers. The `mins` column, the "Avg length" average and the per-decade
  averages are not modelled.
- Summary.AvgYear: rounding to tenths is modelled on exact reals (within
  0.05 of the mean, halves rounded up). IEEE-754 error in the sum and
  division is not modelled.
- RetroKnob.Round: `Math.round` on exact reals, without binary
  floating-point representation error.
- The knob's pointer geometry (`atan2`, bounding rectangles and pointer
  capture). `RetroKnob.SetFromDeg` takes the computed angle as input.
- The knob with a `NaN` value. Only a missing value (`null`/`undefined`) is
  modelled; it stands for `lo`.
- Regular-expression details beyond ASCII. Character classes (`\s`, `\d`,
  `\w`, `\b`) and lower-casing are ASCII. Unicode whitespace and Unicode
  case mapping are outside the model. Lengths count `char`s, not UTF-16
  code units.
- DashboardViews.ToggleLabel: the `!labels` branch that returns `[name]`
  is not modelled. The parameter defaults to `[]` and every caller passes
  a list.
- ChartTheme.WrapText: when no line is produced (a label made only of
  spaces), the source assigns to `lines[-1]`, an array property that is
  never shown. The model returns the empty list unchanged, which is what
  is displayed.
- ChartTheme.WrapLinesWords: states the word content of the lines only for
  labels whose words are separated by single spaces. With doubled spaces,
  `split(" ")` yields empty words, and the lemma says nothing about those
  labels.
- ChartTheme.ColorByIndex: for a negative index the model reads
  `SPREAD[i % n]` with JavaScript's truncating `%`, giving `undefined`
  unless i is a multiple of n; the contract pins the value only for
  non-negative indices, the only ones the charts pass.
- FolderTab.ExhibitCode: `String.fromCharCode` is modelled as the code unit
  it produces. The string itself is not built.
- Dashboard.DefaultsOf: a year of 0 in the data is falsy, so the default
  minimum falls back to 1960. The contract states coverage of the data's
  years only when no year is 0.
- Configuration and routing (`tailwind.config.js`, `vite.config.js`,
  `src/routes.js`) and the static résumé content, which is used only for
  the job periods.
