# easy_images, modelled in Dafny

This project models the core of easy_images, a Python library that
downloads images for keyword searches from a web image-search page. It
also offers bulk post-processing on a directory of images. All the logic
lives in the `EasyImages` class of `build/lib/easy_images/easy_images.py`,
and the model follows that file piece by piece:

- `dhash.dfy` — `_generate_hash`, the difference hash. Each of the `n`
  rows of the downscaled grid gives a flag per pair of horizontal
  neighbours ("right is brighter"). Bit `i` of the hash is the `i`-th flag
  in row-major order.
- `live_dedup.dfy` — `_remove_duplicates`, the first-arrival duplicate
  index consulted by the download loop. It is a class whose map the
  `Classify` method updates in place.
- `bulk_dedup.dfy` — `remove_duplicates`, the two-phase directory
  clean-up. Its two loops are methods proved against prefix functions.
- `reveal.dfy` — `_scroll_down` and `_get_image_url`: how many DOWN keys
  are sent, and the set of collected image addresses turned into a list.
  The browser is a class counting the key presses it received.
- `naming.dfy` — the keyword table built from the `keywords` argument,
  the extension taken from the sniffed MIME type, and the file name of an
  accepted image.
- `acquisition.dfy` — the per-keyword download loop of `download`, and
  `download` itself.
- `postprocessing.dfy` — `post_processing`: which operations run, and in
  which order.
- `text.dfy` — the Python string operations these pieces use:
  - `str.strip`
  - `str.split` on one character, and `[-1]` of its result
  - `in` on strings
  - `replace(" ", "_")`
  - `str()` of an int
- `wrappers.dfy` — an Option type and pairwise-distinct sequences.

The download loop is stated three ways:

- `Step` and `RunFrom` say what one iteration and the whole loop do to the
  state: the `Downloaded` counter, `image_number`, the duplicate index, the
  directory, how many candidates were requested, and which were counted.
- `Kept` and `Seen` say independently which candidates end up counted,
  without the loop.
- `DownloadKeyword` is the loop as a method. It works with a fresh
  `DuplicateIndex` object and is proved to compute `Run`.

The invariant `Inv` links `RunFrom` to `Kept`. The lemmas after it prove:

- the quota is respected;
- the loop stops straight after the candidate that filled the quota;
- which candidates are counted, in terms of the raw answers;
- kept files are numbered without gaps;
- what the directory holds;
- fingerprints in the live index are distinct.

With duplicate removal on, a written file may turn out to be one that the
fingerprinting cannot decode. When that happens, the exception is caught
by the loop's outer `except` (line 346), so the file stays on disk and is
not counted. The model keeps
this behaviour (`Leftover`, `LeftoverStays`, `DirectoryContents`). Only
the bulk `remove_duplicates` deletes an undecodable file at once (line
417).

## Model

| member | source | states |
|---|---|---|
| DHash.RowFlags | build/lib/easy_images/easy_images.py:141 | one flag per pair of neighbours in a row; flag c is set exactly when column c+1 is brighter than column c |
| DHash.FlagSumBits | build/lib/easy_images/easy_images.py:143 | bit i of the sum of 2^index over the set flags is set exactly when flag i exists and is set |
| DHash.FlagSum | build/lib/easy_images/easy_images.py:143 | the sum of 2^index over k flags is below 2^k |
| DHash.FlagsLength | build/lib/easy_images/easy_images.py:141-142 | the flattened diff of a grid whose rows have w+1 values has w flags per row |
| DHash.HashFlags | build/lib/easy_images/easy_images.py:138-143 | the hash is the flattened diff read as a binary number, lowest bit first: bit i is set exactly when flag i exists and is set, and it is below 2^(number of flags) |
| DHash.FlagSumZero | build/lib/easy_images/easy_images.py:143 | the sum is 0 exactly when no flag is set |
| DHash.FlagsAt | build/lib/easy_images/easy_images.py:141-143 | in the row-major flattening, position r*w+c is the flag of row r, column c |
| DHash.HashBits | build/lib/easy_images/easy_images.py:139-143 | for an n by n+1 grid, bit r*n+c of the hash is set exactly when grid[r][c] < grid[r][c+1] |
| DHash.HashBound | build/lib/easy_images/easy_images.py:139-143 | for an n by n+1 grid the hash is below 2^(n*n), and no bit at n*n or above is set |
| DHash.HashZero | build/lib/easy_images/easy_images.py:141-143 | the hash is 0 exactly when no row ever gets brighter to the right |
| DHash.ConstantGridHash | build/lib/easy_images/easy_images.py:141-143 | a constant grid hashes to 0 |
| LiveDedup.Register | build/lib/easy_images/easy_images.py:159-168 | a new fingerprint is registered with exactly [path] and reported Unique; a known one is reported Duplicate and the index is unchanged; an undecodable image raises (Undecodable) and changes nothing; one-path buckets stay one-path |
| LiveDedup.DuplicateIndex.constructor | build/lib/easy_images/easy_images.py:300 | the index starts empty |
| LiveDedup.DuplicateIndex.Classify | build/lib/easy_images/easy_images.py:145-168 | the verdict and the new map are those of Register on the old map, and every bucket keeps exactly one path |
| BulkDedup.ScanListing | build/lib/easy_images/easy_images.py:409-424 | first loop: undecodable files are deleted in listing order; the dictionary's key order is the fingerprints in first-appearance order; each fingerprint maps to every readable path with it, in listing order |
| BulkDedup.RemoveGroups | build/lib/easy_images/easy_images.py:426-433 | second loop: for each fingerprint in dictionary order, every path but the first is deleted (`Duplicates`) |
| BulkDedup.RemoveDuplicates | build/lib/easy_images/easy_images.py:404-433 | the deletions are all undecodable files first, then the duplicates group by group; with distinct names, a file is deleted exactly when it is not the first readable file of its fingerprint |
| BulkDedup.RemovedIff | build/lib/easy_images/easy_images.py:409-433 | with distinct names, entry i is deleted exactly when it is not the first readable entry with its fingerprint |
| BulkDedup.RemovedIffAll | build/lib/easy_images/easy_images.py:409-433 | RemovedIff for every entry of the listing at once |
| BulkDedup.UndecodableIff | build/lib/easy_images/easy_images.py:415-419 | with distinct names, an entry among the first n is in `Undecodable`, the names the first pass deletes, exactly when cv2 could not read it |
| BulkDedup.OrderIff | build/lib/easy_images/easy_images.py:421-424 | a fingerprint is in `Order`, the dictionary's key order, exactly when some readable entry has it, and keys never repeat |
| BulkDedup.TailIff | build/lib/easy_images/easy_images.py:428-429 | a name is in the deleted tail of a fingerprint's `Group` exactly when its entry has that fingerprint and an earlier readable entry had it too |
| BulkDedup.SurvivorCount | build/lib/easy_images/easy_images.py:409-433 | the number of `Survivors` (the first readable file of each fingerprint) equals the number of distinct fingerprints |
| Reveal.TruncDiv | build/lib/easy_images/easy_images.py:186 | int() of a quotient truncates toward zero: floor for non-negative numerators, rounding up for negative ones |
| Reveal.ScrollCount | build/lib/easy_images/easy_images.py:185-186 | the count is between 0 and 160; 0 for 26 images or fewer, (n-25)/2 rounded down for 27 to 344, and 160 from 345 on |
| Reveal.ScrollCountMonotone | build/lib/easy_images/easy_images.py:185-186 | asking for more images never scrolls less |
| Reveal.RevealPresses | build/lib/easy_images/easy_images.py:213-224 | at most 320 presses in all; a second pass only when max_limit > 350 and "show more" was clicked; above 350 it is 320 or 160 |
| Reveal.Browser.ScrollDown | build/lib/easy_images/easy_images.py:185-189 | exactly ScrollCount(number) DOWN keys are sent |
| Reveal.CollectUrls | build/lib/easy_images/easy_images.py:229-246 | the collected set is exactly the kept addresses of all successful thumbnail clicks |
| Reveal.PanelUrlsIff | build/lib/easy_images/easy_images.py:240-243 | an address is in `PanelUrls`, the addresses kept from one click, exactly when some preview offers it as src and it does not contain "data:image" |
| Reveal.PageUrlsIff | build/lib/easy_images/easy_images.py:233-246 | an address is in `PageUrls`, the addresses collected from all clicks, exactly when some successful click offers it and it does not contain "data:image"; failed clicks contribute nothing |
| Reveal.NoInlineData | build/lib/easy_images/easy_images.py:242-243 | no collected address contains "data:image" |
| Reveal.SetToList | build/lib/easy_images/easy_images.py:248 | the list has the set's elements, each exactly once, and as many as the set |
| Reveal.Browser.GetImageUrls | build/lib/easy_images/easy_images.py:206-248 | sends RevealPresses keys; the list holds each collected address exactly once and its length is the number of collected addresses |
| Naming.Dedup | build/lib/easy_images/easy_images.py:277 | the dictionary keys are the same elements as the items, without repeats |
| Naming.DedupOrder | build/lib/easy_images/easy_images.py:277 | keys come in the order of their first occurrence |
| Naming.PhraseTerms | build/lib/easy_images/easy_images.py:277 | the keys are exactly the stripped items; there is at least one and at most as many as the items |
| Naming.KeywordTableOrder | build/lib/easy_images/easy_images.py:277 | the terms of a phrase come in the order in which their stripped forms first occur among the items, which is the order the download loop visits them |
| Naming.KeywordTable | build/lib/easy_images/easy_images.py:276-279 | a phrase gives distinct terms, each the stripped form of some comma-separated item, each mapped to max_limit; a dictionary is used as given |
| Naming.Extension | build/lib/easy_images/easy_images.py:321 | a dot followed by the text after the last '/' of the MIME type (all of it if there is no '/'); that text contains no '/' |
| Naming.ExtensionOfType | build/lib/easy_images/easy_images.py:321 | for type/subtype the extension is "." + subtype |
| Naming.Stem | build/lib/easy_images/easy_images.py:326 | the stem has the keyword's length and no spaces |
| Naming.FileNameShape | build/lib/easy_images/easy_images.py:326 | the name of image number n is the keyword with spaces replaced by '_', then '_', then digits without a leading zero that denote n, then the extension |
| Naming.FileNameInjective | build/lib/easy_images/easy_images.py:326 | for one keyword, equal names built from non-negative numbers and dotted extensions have equal numbers and extensions |
| Text.Strip | build/lib/easy_images/easy_images.py:277 | the result is a slice of the input, with only whitespace cut on both sides, and neither end of the result is whitespace |
| Text.Split | build/lib/easy_images/easy_images.py:277 | one more part than separators; no part contains the separator; joining the parts gives the string back |
| Text.SplitJoin | build/lib/easy_images/easy_images.py:277 | splitting separator-free parts joined by the separator gives the parts back |
| Text.LastPart | build/lib/easy_images/easy_images.py:321 | split(sep)[-1] is a suffix without sep that is the whole string or follows a sep |
| Text.ReplaceSpaces | build/lib/easy_images/easy_images.py:326 | every space becomes '_', nothing else changes |
| Text.Decimal | build/lib/easy_images/easy_images.py:326 | str(n) is a nonempty digit string without a leading zero that denotes n |
| Text.DecimalInjective | build/lib/easy_images/easy_images.py:326 | different numbers have different decimal strings |
| Text.IntToStringValue | build/lib/easy_images/easy_images.py:326 | str() of an int starts with '-' exactly when it is negative; the rest is digits without a leading zero that denote its magnitude |
| Acquisition.ClassifyMime | build/lib/easy_images/easy_images.py:316-324 | for a MIME type type/subtype, a fetched answer is saved (Written) exactly when str() of its body does not contain "html" and "." + subtype is an allowed format, and then under "." + subtype; everything else is skipped |
| Acquisition.DefaultFormatsMime | build/lib/easy_images/easy_images.py:250 | with the default image_formats, an answer of type type/subtype is saved exactly when its body does not contain "html" and subtype is jpg, jpeg or png |
| Acquisition.Step | build/lib/easy_images/easy_images.py:315-347 | every iteration requests exactly one candidate |
| Acquisition.Visit | build/lib/easy_images/easy_images.py:326-347 | the write, the duplicate check and the counter updates of one iteration give Step's state, with the index object's map as its index |
| Acquisition.Consult | build/lib/easy_images/easy_images.py:333-344 | after the write: an undecodable file changes nothing; a duplicate's file is removed while both counters end where they were; a new image is registered and counted |
| Acquisition.DownloadKeyword | build/lib/easy_images/easy_images.py:294-347 | the loop over the candidates, with its break, gives exactly Run's final state |
| Acquisition.RunFromEnds | build/lib/easy_images/easy_images.py:310-347 | from any state, the loop ends with no more requests than candidates, with all of them requested or the quota met, and without taking back a counted image |
| Acquisition.RunInv | build/lib/easy_images/easy_images.py:310-347 | when the loop ends (`Run`), the invariant holds, and either every candidate was requested or Downloaded equals max_limit |
| Acquisition.Quota | build/lib/easy_images/easy_images.py:294-344 | image_number equals Downloaded, which is the number of counted candidates; with max_limit >= 0, 0 <= Downloaded <= max_limit |
| Acquisition.StopsWhenFull | build/lib/easy_images/easy_images.py:310-313 | all candidates are requested unless the quota is met; then the last request is the counted candidate that met it (none when max_limit is 0) |
| Acquisition.CountedCandidates | build/lib/easy_images/easy_images.py:315-347 | a requested candidate is counted exactly when it is written (fetched, no "html" in the body, allowed extension) and, with dedup on, decodable with a fingerprint no earlier written decodable candidate had; without dedup every written candidate counts |
| Acquisition.EligibleIff | build/lib/easy_images/easy_images.py:333-344 | the first-arrival rule restated without the Seen set |
| Acquisition.FilesNumbered | build/lib/easy_images/easy_images.py:326-344 | the n-th counted image is on disk as keyword_<n+1><ext> with its own body, so kept files are numbered 1 to Downloaded without gaps |
| Acquisition.DirectoryContents | build/lib/easy_images/easy_images.py:326-347 | every file on disk is a counted image under its own name or an undecodable leftover; without leftovers the directory holds exactly the counted images' names |
| Acquisition.DistinctFingerprints | build/lib/easy_images/easy_images.py:298-335 | with dedup on, any two counted images are decodable and have different fingerprints, and the earlier one is indexed under exactly its own file's name |
| Acquisition.IndexedEntry | build/lib/easy_images/easy_images.py:298-344 | with dedup on, every counted image, the last one included, is decodable and the index maps its fingerprint to exactly its own file's name; every bucket holds one name |
| Acquisition.LeftoverStays | build/lib/easy_images/easy_images.py:330-347 | with dedup on, a written file cv2 cannot decode stays on disk and changes neither counter |
| Acquisition.DuplicateNetZero | build/lib/easy_images/easy_images.py:335-344 | a duplicate leaves both counters and the index as they were and removes its file |
| Acquisition.Answers | build/lib/easy_images/easy_images.py:310-316 | the answer for each address, in request order |
| Acquisition.DownloadOne | build/lib/easy_images/easy_images.py:292-357 | one keyword: the presses of GetImageUrls; Found is the number of distinct collected addresses; Downloaded is Run's over their answers |
| Acquisition.DownloadTable | build/lib/easy_images/easy_images.py:292-357 | the loop over the keyword table: one summary row per keyword, in order, each as DownloadOne describes; the presses are the total over all keywords |
| Acquisition.Download | build/lib/easy_images/easy_images.py:276-357 | builds the keyword table from the keywords argument, then reports as DownloadTable does for that table |
| Acquisition.DownloadDefaults | build/lib/easy_images/easy_images.py:250-357 | `download` with its default arguments: max_limit 10, formats .jpg, .jpeg and .png, no duplicate removal |
| PostProcessing.Plan | build/lib/easy_images/easy_images.py:546-549 | each operation whose flag is set (resize when truthy, with its size) is in the plan, no other is, and the plan's length is the number of set flags |
| PostProcessing.PlanOrder | build/lib/easy_images/easy_images.py:546-549 | the plan runs in the order dedup, resize, grayscale, averaging |
| PostProcessing.DefaultPlan | build/lib/easy_images/easy_images.py:528-549 | with its default arguments `post_processing` starts no operation |
| PostProcessing.DedupFirst | build/lib/easy_images/easy_images.py:546-549 | when duplicate removal is asked for, it is the first operation |

## Left out

- Browser driving through selenium is not modelled. This covers navigation, `find_element`, clicks, `page_source` and BeautifulSoup parsing. What the page shows is the input `SearchPage`.
- The scroll element is assumed to be found. If it is not, `find_element` at line 211 raises, and nothing catches that.
- Browser creation and `browser.close` are left out. This includes the brave binary path and the driver manager.
- Network and MIME sniffing are not modelled: `requests.get` and `magic.Magic.from_buffer` are replaced by one `Fetch` answer per address. `shown` stands for `str(request_object.content)`, taken as given.
- OpenCV is not modelled: `imread`, `cvtColor`, `resize` and `imwrite`. A decoded image is the already downscaled luminance grid. A decode failure gives None.
- File writes and `os.remove` are assumed to succeed (lines 330-331, 339, 417, 431).
  - If the removal at line 339 raised, both counters would still drop and rise again. The duplicate's file would stay uncounted.
- Paths are reduced to file names, so `download`'s `output_dir` argument and its default `'easy_images_dir'`, and `post_processing`'s `image_dir`, do not appear.
  - Each keyword's directory starts empty. Files from earlier runs are not modelled.
  - Two keywords with the same stem share one directory; that is not modelled either.
- `os.listdir` order is taken as the given listing.
- `_make_directory`, `_check` and its Final column, the summary table, `tabulate`, printing, logging, tqdm, sleeps and timing are left out. They are I/O and presentation.
- `resize_and_save`, `to_grayscale` and `calculate_avg_image_size` are not modelled. They are thin cv2 and numpy wrappers. `post_processing` is modelled only as the sequence of operations it starts.
- Reveal.ScrollCount: uses exact integers for `(number - 25)/2`. Python uses a float, which rounds beyond 2^53 and raises OverflowError for ints beyond the float range. The clamp hides the rounding, but the model does not raise.
- Reveal.SetToList: Python leaves the order of `list(set)` unspecified. The model may return any order, so `Download` states each keyword's Downloaded for the address order it actually used (the ghost `lists`).
- Naming.KeywordTable: a dictionary argument is taken as its items in insertion order. That its keys differ is a property of Python dictionaries and is not restated.
- The `image_dir` label computation in `remove_duplicates` only feeds the progress bar, so it is left out.
- `hash_size` is fixed at 8 in the code. The hash lemmas hold for any grid of n rows of n+1 values.
