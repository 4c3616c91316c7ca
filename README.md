# GoogleMapsScraper — a Dafny model of the scraping core

GoogleMapsScraper collects business listings from Google Maps search results. It has
two variants: the Flask application `app.py` and the command-line script
`selenium_test.py`. This project models the part of them that decides what is recorded:

- one listing record from one listing element, with every field failing soft to `"N/A"` when its element is missing (app.py writes an `href` of `None` as `""`);
- `extract_items`, which drops listings whose `(title, phone_num)` key was already
  seen in this session (`found_places`);
- `scroll_page`, which paginates until the target count is met or a batch brings
  nothing new, with the height poll after each scroll;
- `radius_to_zoom`;
- selenium_test.py's `calculate_increments` and its grid-search job list;
- `update_csv_with_data`, which merges a batch into the dataset file without
  touching existing lines;
- app.py's dataset file name and the required-field check of a grid-search request.

The browser is a parameter. A `Page` gives the listing elements the k-th extraction
sees and the successive `scrollHeight` readings. A listing element is a record of
`Lookup`s, one per CSS selector: missing element, missing attribute, or a text.
The phone-number regular expression is a function parameter, `PhoneSearch`. The CSV
file is a sequence of `Header` and `Record` lines. A file the program wrote (missing,
or starting with the header) is read the way `csv.DictReader` reads it.

Files:

- `wrappers.dfy`: `Option`, `Result`.
- `pystr.dfy`: Python's `str.strip`, single-character `str.replace`, `str.split`
  and slicing.
- `keyed.dfy`: the keys of a sequence of rows.
- `listings.dfy`: the listing record, the phone field and the session deduplication,
  shared by both scripts.
- `paging.dfy`: the page and the height poll.
- `csvstore.dfy`: the dataset merge, generic in the row and key types.
- `zoom.dfy`: the zoom level.
- `app.dfy` and `selenium.dfy`: the two variants.
- `variants.dfy`: where the two agree and where they differ.

Four behaviours of the code that are easy to misread:

- **Merge keys.** The keys a merge checks against are those read before the write
  loop. The dictionary is not updated while writing, so two rows of one batch with
  the same key are both appended (`CsvStore.MergeRepeatInBatch`).
- **Header.** The header is written when no row was read. A file holding only a
  header gets a second header, which later reads back as a data row
  (`CsvStore.MergeHeaderOnlyFile`, `CsvStore.EmptyMergeTwice`).
- **Poll timeout.** A height poll that times out does not end pagination. Only an
  empty extraction or reaching the target does, so results depend on the batches
  alone (`AppScraper.ScrollPage`, `SeleniumScraper.ScrollPage`).
- **Zoom.** `radius_to_zoom(5)` is 14 and `radius_to_zoom(1)` is 17. No positive
  integer radius reaches the cap of 21 (`Zoom.ZoomExamples`, `Zoom.ZoomAtMost17`).

## Model

| member | source | states |
|---|---|---|
| PyStr.Strip | app.py:45 | `.strip()`: the result is no longer than the input and has no leading or trailing whitespace |
| PyStr.StripSlice | app.py:45 | the stripped text is a contiguous slice of the input with only whitespace cut on either side |
| PyStr.StripUnique | app.py:45 | any cut that removes only whitespace and leaves non-space ends is the strip |
| PyStr.StripIdempotent | app.py:45 | stripping twice is stripping once |
| PyStr.StripPadded | app.py:45 | whitespace added around a text does not change its strip |
| PyStr.StripPadLeft | app.py:45 | whitespace added in front does not change the strip |
| PyStr.StripPadRight | app.py:45 | whitespace added behind does not change the strip |
| PyStr.StripNoop | app.py:45 | a trimmed text is its own strip |
| PyStr.StripSubset | app.py:45 | every character of the strip occurs in the input |
| PyStr.StripKeepsOut | app.py:45 | a character absent from the input is absent from its strip |
| PyStr.ReplaceChar | app.py:56 | `s.replace(c, rep)` for one character `c`: every `c` becomes `rep`, every other character stays |
| PyStr.RemoveChar | app.py:56 | `replace(c, "")` removes every `c` and keeps the count of every other character |
| PyStr.ReplaceCharPointwise | app.py:206 | `replace(' ', '_')` keeps the length and changes exactly the spaces |
| PyStr.ReplaceCharConcat | app.py:56 | replacing distributes over concatenation |
| PyStr.ReplaceCharAbsent | app.py:61 | replacing a character the text lacks changes nothing |
| PyStr.ReplaceCharSpaces | app.py:61 | replacing a non-space character leaves pure whitespace unchanged |
| PyStr.ReplaceCommutesWithStrip | selenium_test.py:95 | for a non-space `c`, replacing before or after stripping agrees once stripped again |
| PyStr.Find | app.py:94 | the first occurrence of the separator, or none at all |
| PyStr.Upto | app.py:94 | `split(sep)[0]`: a prefix free of the separator, shorter than the text exactly when the separator occurs, and then ending where its first occurrence begins |
| PyStr.After | app.py:94 | the text after the first separator, present exactly when the separator occurs: the text is `Upto`, the separator, then the result |
| PyStr.Split | app.py:94 | `s.split(sep)` for a non-empty separator: the texts between successive first occurrences, at least one part |
| PyStr.SplitFirst | app.py:94 | the first part of `split` is the text before the first separator |
| PyStr.SplitSecond | app.py:94 | `split(sep)[1]` exists exactly when the separator occurs, and is the text between its first two occurrences |
| PyStr.SplitPair | selenium_test.py:110 | `split` gives exactly two parts iff the separator occurs exactly once, and they are the text before and after it |
| PyStr.SplitJoin | app.py:94 | joining the parts of `split` with the separator gives back the text |
| PyStr.SplitPartsFree | app.py:94 | no part of `split` contains the separator |
| PyStr.ContainsSlice | app.py:94 | what a slice contains, the whole text contains |
| PyStr.SliceTo | app.py:135 | Python's `xs[:n]` for every integer `n`, negative ones included: a prefix of the length Python gives |
| Keyed.SameKeysSet | app.py:85-89 | sequences whose keys agree position by position have the same key set |
| Keyed.KeysByConcat | app.py:183-189 | the keys of a concatenation are the union of the keys |
| Keyed.KeysByEmpty | app.py:180 | only the empty sequence has no keys |
| Keyed.UniqueByConcat | app.py:183-189 | two key-disjoint sequences with distinct keys concatenate to one with distinct keys |
| Keyed.UniqueByPrefix | app.py:135 | a prefix of a sequence with distinct keys has distinct keys |
| Listings.PhoneNumber | app.py:75-83 | the stripped first match of the phone pattern in the stripped description; `"N/A"` when the description is missing or nothing matches |
| Listings.KeyOf | app.py:85 | a listing's identity is its title and phone number |
| Listings.PhoneNumberSentinel | app.py:75-83 | the phone field is `"N/A"` exactly when the description is missing or holds no match; otherwise it is the match, which occurs in the stripped description |
| Listings.Kept | app.py:85-89 | the listings a batch keeps are at most the batch |
| Listings.KeptStep | app.py:85-89 | one step of the deduplication: a listing is kept iff its key is neither found nor seen earlier in the batch, and its key becomes seen |
| Listings.KeptKeys | app.py:85-89 | the kept keys are exactly the batch's keys not already found |
| Listings.KeptUnique | app.py:85-89 | kept listings have pairwise distinct keys, none already found |
| Listings.KeptInOrder | app.py:85-89 | kept listings appear in page order |
| Listings.KeptSameKeys | selenium_test.py:59-65 | deduplicating two batches with the same keys keeps the same positions |
| Paging.Batch | app.py:113 | the k-th extraction sees the k-th batch; past the last batch, no listing appears |
| Paging.HeightAt | app.py:125 | the r-th `scrollHeight` reading; past the last one, the page no longer grows |
| Paging.Attempts | app.py:122-130 | the readings one poll takes before it times out, at least one |
| Paging.WaitForGrowth | app.py:122-130 | the poll reads at least once, stops at the first reading above the previous height and returns it, or after the timeout returns the previous height with no reading above it |
| CsvStore.ReadRows | app.py:170-174 | `DictReader` yields one row per line after the first, none for a missing or empty file |
| CsvStore.LineIsRead | app.py:172-174 | line `i` of the file is read back as row `i - 1`, a header line as the row of column names |
| CsvStore.RecordsAreRead | app.py:172-174 | every record of a file that starts with a header is read back |
| CsvStore.ReadRowsAppend | app.py:176 | appending lines to a file with a first line appends rows to what is read |
| CsvStore.ReadExisting | app.py:168-174 | for a file the program wrote, the dictionary read has exactly the keys of the rows read, each mapped to a row read with that key |
| CsvStore.UnwrittenMembers | app.py:183-189 | a row is written iff it is in the batch and its key was not read |
| CsvStore.UnwrittenKeys | app.py:183-189 | the written keys are batch keys disjoint from the read keys, and distinct when the batch's were |
| CsvStore.WriteStep | app.py:185-189 | one step of the write loop: a row with an unread key is appended, any other is skipped |
| CsvStore.Snapshot | app.py:170-174 | the keys of the rows read before the write loop, the keys of `existing_data` |
| CsvStore.HeaderIfNoRows | app.py:180-181 | the header is written iff no row was read |
| CsvStore.Appended | app.py:180-189 | the lines a merge appends: the header iff no row was read, then the batch rows whose key was not read, in order |
| CsvStore.Merged | app.py:176-189 | the file after a merge: present, its old lines followed by the appended ones |
| CsvStore.MergeAppendOnly | app.py:176-189 | the merge keeps every existing line and appends the unwritten rows after them |
| CsvStore.MergeHeaderAndRecords | app.py:180-189 | a header is appended iff no row was read, then only records; a batch row is appended iff its key was not read |
| CsvStore.MergeHeaderOnlyFile | app.py:180-181 | a header-only file gets a second header, later read as a row of column names |
| CsvStore.MergeRepeatInBatch | app.py:183-189 | two rows of one batch with the same key are both appended |
| CsvStore.SnapshotGrows | app.py:170-189 | after a merge the file reads back every key it read before |
| CsvStore.SnapshotHoldsAppended | app.py:183-189 | after a merge the file reads back the key of every appended row |
| CsvStore.MergeTwice | app.py:167-189 | merging the same batch again appends no record, and changes nothing when the first merge left rows to read |
| CsvStore.EmptyMergeTwice | app.py:180-181 | two merges of an empty batch into a missing file leave two header lines |
| CsvStore.MergeKeepsUnique | app.py:167-189 | the merge keeps the file well formed, and keeps record keys distinct when the batch's are |
| Zoom.FloorLog2 | app.py:142 | the truncated base-2 logarithm of `n / d`: `d * 2^k <= n < d * 2^(k+1)` |
| Zoom.ClampedLog2 | app.py:142-143 | the largest `k` in 0..21 with `2^k * d <= 40075017`, or 0 when `d` exceeds it |
| Zoom.RadiusToZoom | app.py:139-143 | a zero radius divides by zero; a divisor `256 * radius` of magnitude 2^1024 - 2^970 or more overflows the float conversion; below that a negative radius is a domain error and a positive one gets a zoom level in 0..21 given by the logarithm bounds |
| Zoom.ZoomNonIncreasing | app.py:139-143 | a larger radius never gives a larger zoom, and when it has a zoom so does the smaller one |
| Zoom.ZoomUnique | app.py:139-143 | the zoom level is the one `k` meeting both logarithm bounds |
| Zoom.ZoomExamples | selenium_test.py:172-176 | radius 1 gives zoom 17 and radius 5 gives 14 |
| Zoom.ZoomAtMost17 | app.py:139-143 | no positive radius that has a zoom gets one above 17 |
| AppScraper.TextField | app.py:44-53 | the stripped text, or `"N/A"` when the element is missing; always trimmed |
| AppScraper.ReviewsField | app.py:55-58 | trimmed, free of parentheses when present, `"N/A"` when missing |
| AppScraper.DotlessField | app.py:60-73 | trimmed, free of middle dots when present, `"N/A"` when missing |
| AppScraper.AppLinkData | app.py:91-101 | the sentinel for all four fields iff the link is missing or lacks one of the three markers; otherwise each coordinate is the text between the first two occurrences of its marker, cut at its end marker |
| AppScraper.AppWebsite | app.py:65-68 | the raw `href`; empty for an anchor without one (Python `None`, written as an empty field); `"N/A"` when the anchor is missing |
| AppScraper.AppListing | app.py:43-101 | the record of one element: each field from its own lookup, the phone from the description, the four link fields from the link |
| AppScraper.AppListingFields | app.py:44-83 | every field fails soft on its own; the website is kept as the `href`, or empty when the attribute is missing; text fields are trimmed and cleaned |
| AppScraper.AppFieldsIndependent | app.py:44-101 | each field depends only on its own element |
| AppScraper.AppLinkAllOrNothing | app.py:91-101 | either all four link fields are the sentinel, or all come from the one link, and no coordinate holds the marker it was cut at |
| AppScraper.Candidates | app.py:42-83 | the records of the visible elements, in page order |
| AppScraper.AppExtract | app.py:37-106 | one `extract_items`: nothing when the wait fails; otherwise the candidates whose key is not yet found nor earlier in the batch, with every candidate key added to `found_places` |
| AppScraper.ExtractItems | app.py:37-106 | the loop computes the deduplicating extraction: the kept listings and the grown `found_places` |
| AppScraper.AppExtractProperties | app.py:37-106 | one extraction emits distinct new keys in page order and adds exactly the visible keys to `found_places`; a failed wait gives nothing |
| AppScraper.AppScrollFrom | app.py:112-133 | the outer loop from the k-th extraction: stop on an empty batch or when the target is reached, else continue with the next batch |
| AppScraper.AppScrolled | app.py:108-135 | `scroll_page`: nothing for a target of 0 or less, otherwise the loop's items cut to the target |
| AppScraper.ScrollPage | app.py:108-135 | the pagination loop, polls included, returns the items and `found_places` of the batch-by-batch definition, cut to the target |
| AppScraper.AppScrollFromInvariant | app.py:112-133 | each round extends the items, their new keys not already found, with at most one extraction per missing item |
| AppScraper.AppScrollProperties | app.py:108-135 | the result has distinct keys, none found before, all in the final `found_places`; at most `target` extractions; nothing for a target of 0 or less |
| AppScraper.AppScrollStopsOnRepeat | app.py:113-115 | a batch repeating only seen listings ends pagination short of the target |
| AppScraper.UpdateCsvWithData | app.py:167-189 | on a file the program wrote, the method appends exactly the merged lines (a header iff no row was read, then the batch rows whose key was not read) and leaves a file of the same shape |
| AppScraper.CsvFileName | app.py:206 | the dataset file of a type: spaces replaced by underscores, then `_maps_data.csv` |
| AppScraper.CsvFileNameShape | app.py:206 | the file name has no space, keeps the type's length and ends with `_maps_data.csv` |
| AppScraper.CsvFileNameCollision | app.py:222 | two types share a file iff they agree with spaces read as underscores, so "a b" and "a_b" collide |
| AppScraper.RequiredFieldsPresent | app.py:336 | `all([...])`: a present non-empty type, four non-zero coordinates and a non-zero radius |
| AppScraper.AppJob | app.py:192-208 | one job: the zoom level, whose exception ends the job untouched; then paginate with an empty `found_places` and merge the items into the type's dataset |
| AppScraper.AppJobKeepsUnique | app.py:192-208 | with the browser calls not raising, a job fails exactly when its zoom level does, with the same exception; otherwise it keeps the dataset well formed with distinct record keys |
| SeleniumScraper.Clamp | selenium_test.py:44-45 | `max(min(x, hi), lo)`: within the bounds when they are ordered, `x` when inside, the upper bound above, the lower below |
| SeleniumScraper.ClampMonotone | selenium_test.py:44-45 | clamping is monotone |
| SeleniumScraper.AreaPerPoint | selenium_test.py:32-36 | the product of the two ranges divided by the point count |
| SeleniumScraper.MidLatitude | selenium_test.py:40 | the mean of the two latitude bounds |
| SeleniumScraper.CalculateIncrements | selenium_test.py:30-47 | errors for zero points, a negative area or a zero cosine; otherwise clamped steps, each equal to its raw value when that is in range |
| SeleniumScraper.LonStepAtLeastLatStep | selenium_test.py:36-45 | with a cosine in (0, 1], the longitude step is at least the latitude step |
| SeleniumScraper.DefaultIncrements | selenium_test.py:30 | with the defaults, a valid box gets both steps in [0.001, 0.3] |
| SeleniumScraper.SeleniumLinkData | selenium_test.py:107-124 | the sentinel iff the link is missing, lacks a marker, or its latitude segment does not split into exactly two parts at the longitude marker |
| SeleniumScraper.RemoveParens | selenium_test.py:76 | the `process` of the reviews: both parentheses removed |
| SeleniumScraper.RemoveDot | selenium_test.py:77 | the `process` of address and category: the middle dot removed |
| SeleniumScraper.SafeFind | selenium_test.py:91-97 | the stripped text or attribute, then `process` if given; `"N/A"` for a missing element or attribute |
| SeleniumScraper.SeleniumListing | selenium_test.py:72-89 | the record of one element: each field through `safe_find`, the phone, then the link fields merged in |
| SeleniumScraper.SeleniumListingFields | selenium_test.py:72-89 | every field fails soft on its own, the website too when its `href` is missing; present title, rating and website are stripped |
| SeleniumScraper.SafeFindPlain | selenium_test.py:91-97 | without `process` the value is stripped, and a failed lookup is `"N/A"` |
| SeleniumScraper.SafeFindFails | selenium_test.py:96-97 | a failed lookup is `"N/A"` whatever the `process` |
| SeleniumScraper.SeleniumCleanedFields | selenium_test.py:76-79 | reviews lose their parentheses and address and category their middle dots, removed after stripping |
| SeleniumScraper.SeleniumLinkAllOrNothing | selenium_test.py:107-124 | all four link fields decode from the one link or all are the sentinel, with no coordinate holding a cut marker |
| SeleniumScraper.SeleniumCandidates | selenium_test.py:56-57 | the records of the visible elements, in page order |
| SeleniumScraper.SeleniumExtract | selenium_test.py:49-70 | one `extract_items`: nothing when the wait fails; otherwise the candidates whose key is new, with every candidate key added to `found_places` |
| SeleniumScraper.ExtractItems | selenium_test.py:49-70 | the loop computes the deduplicating extraction |
| SeleniumScraper.SeleniumExtractProperties | selenium_test.py:49-70 | distinct new keys in page order; `found_places` grows by exactly the visible keys |
| SeleniumScraper.SeleniumScrollFrom | selenium_test.py:144-168 | the outer loop from the k-th extraction: stop on an empty batch, else take what the target still allows of the batch and stop once it is reached |
| SeleniumScraper.SeleniumScrolled | selenium_test.py:126-170 | `scroll_page`: nothing for a target of 0 or less, otherwise the loop's items |
| SeleniumScraper.SeenKeys | selenium_test.py:64 | the keys of every listing a range of extractions saw, those cut off included |
| SeleniumScraper.ScrollPage | selenium_test.py:126-170 | the pagination loop, polls included, returns what the batch-by-batch definition with per-batch cuts gives |
| SeleniumScraper.SeleniumScrollFromInvariant | selenium_test.py:144-168 | each round extends the items within the target; items cut off by the target still leave their keys in `found_places` |
| SeleniumScraper.SeleniumScrollProperties | selenium_test.py:126-170 | at most `target` items with distinct new keys; `found_places` gains every key the extractions saw |
| SeleniumScraper.FirstBatchFills | selenium_test.py:144-168 | a first extraction with at least the target number of new listings ends pagination after one call, with the batch cut to the target |
| SeleniumScraper.SeleniumScrollCutKeepsKey | selenium_test.py:150 | a listing cut off by the target keeps its key in `found_places` |
| SeleniumScraper.TypedKeyOf | selenium_test.py:207-217 | a dataset row is identified by title, phone number and establishment type |
| SeleniumScraper.Tagged | selenium_test.py:216-222 | each listing of the batch tagged with the job's type, in order |
| SeleniumScraper.UpdateCsvWithData | selenium_test.py:200-223 | on a file the program wrote, the method appends the merged lines, each row tagged with the job's type and keyed by title, phone number and type, and leaves a file of the same shape |
| SeleniumScraper.SeleniumMergeAppended | selenium_test.py:216-223 | a batch listing is appended iff its key with this type was not read; every appended row carries the type |
| SeleniumScraper.SeleniumMergeTwice | selenium_test.py:200-223 | merging the same batch with the same type again appends no record |
| SeleniumScraper.SeleniumTypeSeparates | selenium_test.py:207-217 | the same listing under another type is appended as a new row |
| SeleniumScraper.TaggedUnique | selenium_test.py:217-222 | tagging a batch with distinct keys gives rows with distinct keys |
| SeleniumScraper.SeleniumJob | selenium_test.py:225-242 | one job: the zoom level, whose exception ends the job untouched; then paginate with an empty `found_places` and merge the items, tagged with the type, into the combined dataset |
| SeleniumScraper.SeleniumJobKeepsUnique | selenium_test.py:225-242 | with the browser calls not raising, a job fails exactly when its zoom level does, with the same exception; otherwise it keeps the combined dataset well formed with distinct keys |
| SeleniumScraper.NestedIndex | selenium_test.py:265-271 | element `i * n + j` of the nested comprehension over `xs` and `ys` (`n` elements) is built from `xs[i]` and `ys[j]` |
| SeleniumScraper.NestedAt | selenium_test.py:265-271 | element `k` of the nested comprehension comes from `xs[k / n]` and `ys[k % n]`, `n` being the length of `ys` |
| SeleniumScraper.GridPoints | selenium_test.py:265-266 | every latitude tick paired with every longitude tick, latitude-major |
| SeleniumScraper.ArgsList | selenium_test.py:269-271 | one job per grid point and type, point-major, with the point's index as step |
| SeleniumScraper.GridPointsShape | selenium_test.py:265-266 | there are as many grid points as latitude ticks times longitude ticks; point `i * m + j` pairs latitude tick `i` with longitude tick `j`, for `m` longitude ticks |
| SeleniumScraper.ArgsListShape | selenium_test.py:269-271 | there are as many jobs as points times types; job `i * t + j` is point `i` with type `j` and step `i`, for `t` types |
| SeleniumScraper.ArgsListJobs | selenium_test.py:269-271 | every job is one grid point with one type, its step that point's index, radius and count passed through |
| Variants.CleanedFieldsAgreeUpToSpace | selenium_test.py:76-79 | selenium_test.py's address, category and reviews, stripped once more, are app.py's |
| Variants.ReviewsAgree | app.py:56 | the two orders of removing parentheses and stripping agree up to surrounding whitespace |
| Variants.DotlessAgrees | app.py:61 | the two orders of removing middle dots and stripping agree up to surrounding whitespace |
| Variants.DotThenSpace | selenium_test.py:77 | for `"· " + x`, app.py gives `x` and selenium_test.py keeps the leading space |
| Variants.WebsiteVariants | app.py:65-68 | a missing element is `"N/A"` in both; a missing `href` is empty in app.py and `"N/A"` in selenium_test.py; a present one is stripped only by selenium_test.py |
| Variants.LinkDecodedByBoth | selenium_test.py:107-117 | whatever selenium_test.py decodes, app.py decodes too, with the same link, latitude and id |
| Variants.LinkDecodedByApp | app.py:91-96 | a link whose longitude marker appears twice in the latitude segment is decoded by app.py |
| Variants.LinkRejectedBySelenium | selenium_test.py:110 | the same link is rejected by selenium_test.py, whose two-part unpacking fails |
| Variants.SameKey | selenium_test.py:59 | both scripts give a listing the same deduplication key |
| Variants.SameDedup | selenium_test.py:49-70 | on the same batch and `found_places`, both extractions keep the same keys in the same order and end with the same `found_places` |
| Variants.ScrollFromSameKeys | selenium_test.py:144-168 | from items with the same keys, app.py cut at the end and selenium_test.py cut per batch keep the same keys, `found_places` and extraction count |
| Variants.CutSameKeys | selenium_test.py:150 | cutting the whole at the target, or only the last batch, keeps the keys alike |
| Variants.ScrollSameKeys | app.py:108-135 | the two paginations give the same keys in the same order, the same `found_places` and the same number of extractions |

## Left out

- The Selenium driver, CSS selectors and explicit waits are not modelled. A listing element is a record of lookups, and a page is the batches it shows.
- `time.time()` and `time.sleep` are not modelled. The poll timeout is a bound on the number of height readings.
- The `Pool` and `tqdm` concurrency of the grid search is not modelled, nor the race on the shared CSV file.
- The phone regular expression is a parameter (`PhoneSearch`) assumed to return a trimmed non-empty match.
- `math.sqrt` and `math.cos(math.radians(...))` are parameters of `CalculateIncrements`. Floating-point rounding is not modelled, and reals stand for floats.
- `np.arange` is left out: the latitude and longitude ticks are inputs to `GridPoints`.
- The browser calls of a job are assumed not to raise: `webdriver.Chrome` (app.py:194, selenium_test.py:227), `driver.get` (app.py:197, selenium_test.py:231), the `execute_script` scrolls and height reads of `scroll_page` (app.py:110/119/125, selenium_test.py:141/153/159; a missing scroll container raises there) and `driver.quit` (app.py:204, selenium_test.py:238). All of them run before the merge, so one that raises ends the job with that exception and leaves the dataset unchanged. The "fails exactly when its zoom level does" of `AppScraper.AppJobKeepsUnique` and `SeleniumScraper.SeleniumJobKeepsUnique` holds under this assumption.
- URL formatting, `log_scraping_info` and `os.path.getsize` are not modelled. The URL only selects the page, which is a parameter; the other two run after the merge.
- The Flask routes other than the required-field check, the result download and the LangChain helpers are not part of this model.
- `float()` and `int()` parsing of the request is not modelled: the gate takes already-parsed numbers.
- app.py's `grid_search` loop (tenths of the box) is not modelled; only its file name is.
- A job whose zoom level fails is a `Failure` of `AppScraper.AppJob` or `SeleniumScraper.SeleniumJob`. What happens next is not modelled: app.py:342-343 turns the exception into an error response and skips the remaining grid points, and `pool.imap` at selenium_test.py:276 re-raises it in the parent process.
- scripts/grid.py is not part of this model.
- CSV quoting and the text encoding are not modelled. A line is a header or one record.
- The values of `existing_data` are never used by the source, so they are modelled only up to being rows read with that key.
- The in-place `data["establishment_type"] = ...` mutation is modelled as tagging the row with its type (`TypedRow`).
- Variants.LinkDecodedByApp: states only that app.py decodes the example link, not the decoded values.
- Zoom.RadiusToZoom: the radius is an integer because `int(...)` parses it. The logarithm is computed exactly in integers. Where the ratio is at least 1 it is never a power of two, and it stays far enough from one for the floating-point logarithm to truncate to the same value; below 1 both are clamped to 0. The overflow bound is the one Python's round-to-nearest conversion of an integer to a float gives.
- The `print` calls are not modelled and are assumed not to raise. One that raises (an encoding error on a title, say) would change the result: at app.py:46 the title becomes `"N/A"`; at app.py:87 and selenium_test.py:61 and 84 `extract_items` ends with the listings gathered so far; at app.py:186/188 and selenium_test.py:219/221 the merge stops with the current row unwritten.
- A dataset file the program did not write (one with lines that is marked missing, or one whose first line is a record) is not modelled. `csv.DictReader` would take a first record's values as column names and the key lookup of app.py:174 or selenium_test.py:207 would raise. The merge methods require a well-formed file, and `CsvStore.ReadRows`, `CsvStore.LineIsRead` and `CsvStore.Merged` describe DictReader only for such files.
