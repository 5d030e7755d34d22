# Photo gallery: metadata store and browser state, in Dafny

This project models the two halves of a small photo gallery.

- **The server, `api/index.php`.** It keeps a JSON document (`meta.json`) that maps item ids to records (file, alt, captionText, tag, createdAt). The document lives inside the uploads directory (`images/uploads`), beside the uploaded images. Every request reads the document whole. The upload, update and delete requests change it in memory and write it back, while the list request only reads it. The model holds the decoded document as `map<string, Record>` and the image files of the uploads directory as a set of file names. Upload, update and delete are methods from the old document and directory to the new ones, and each states its whole effect. List is a method that returns only the items. Lemmas cover the pure parts: the file-name sanitiser, the extension whitelist, the defaults of a new record, and the public view.
- **The browser, `script.js`.** The theme switch, the remembered deletions of built-in cards, and the editable filter labels each own a localStorage value. Each becomes a class whose field is that value. The grid becomes a class holding its sequence of cards. The lightbox becomes a class holding its slide collection and its cyclic index, with JavaScript's NaN for an empty collection. The remaining client rules are functions: the category prompt and the alt text and caption of an upload.

Files:
- `wrappers.dfy`: Option and Result.
- `names.dfy`: character-level name rules used by both sides. These are one-for-one replacement, ASCII lower-casing, `pathinfo` extension, and removal of a final `.xxx`.
- `sorting.dfy`: the newest-first sort used by both sides, plus sequence reversal.
- `gallery_api.dfy`: the server.
- `gallery_client.dfy`: the browser.

## Model

| member | source | states |
|---|---|---|
| Names.MapChars | api/index.php:44 | the result has the input's length and holds the replacement of each character at its position |
| Names.Lower | api/index.php:51 | strtolower keeps the length, lower-cases each ASCII letter in place and leaves no upper-case ASCII letter |
| Names.LastDot | api/index.php:121 | finds the position of a dot with no dot after it, or reports that the name has no dot at all |
| Names.Extension | api/index.php:121 | the pathinfo extension holds no dot; it is empty for a name without a dot, and otherwise it is the text that follows the last dot |
| Names.StripFinalExtension | api/index.php:133 | the `/\.[^.]+$/` removal leaves the name unchanged when the extension is empty; otherwise stem + "." + extension gives back the name |
| Names.StemNonEmpty | api/index.php:133 | a non-empty name that does not start with a dot keeps a non-empty stem |
| Sorting.Insert | api/index.php:76 | inserting into a newest-first sequence keeps it newest first and adds exactly the one element (as a multiset) |
| Sorting.SortDesc | api/index.php:76 | the usort comparator yields a sequence that is newest first and a permutation of its input |
| Sorting.Reversed | script.js:287 | the reversal has the same length and holds the element at the mirrored position |
| Sorting.ReversedSortedDesc | script.js:284-287 | reading a newest-first sequence backwards gives an oldest-first sequence |
| GalleryApi.ReadMeta | api/index.php:22-28 | read_meta gives the empty map for an unreadable or empty file and for content that does not decode to an array; otherwise it gives the decoded map |
| GalleryApi.LeadingDots | api/index.php:46 | counts the leading dots: every counted character is a dot and the next one is not |
| GalleryApi.TrimLeadingDots | api/index.php:46 | after ltrim the name is empty or does not start with a dot |
| GalleryApi.Cleaned | api/index.php:44-46 | after replacement and ltrim the name is empty or does not start with a dot |
| GalleryApi.CleanedReplacesOneForOne | api/index.php:44-46 | ltrim removes only dots, and each remaining character is the `_`-replacement of the input character at the same offset |
| GalleryApi.CleanedSafe | api/index.php:44 | after the preg_replace only characters of `[A-Za-z0-9._-]` remain |
| GalleryApi.SanitizeFilename | api/index.php:43-48 | sanitize_filename never returns a PHP-false string or a dot file; it returns the fallback `file_` + uniqid or a name of safe characters |
| GalleryApi.SanitizeIsCleaned | api/index.php:47 | a PHP-true cleaned name is returned as is; any other result is the fallback |
| GalleryApi.SanitizeFallback | api/index.php:46-47 | an all-dot name (including "") and the name "0" get the fallback name |
| GalleryApi.SanitizeKeepsSafeNames | api/index.php:43-48 | a PHP-true safe name that is not a dot file passes unchanged |
| GalleryApi.FallbackSafe | api/index.php:47 | the fallback name is safe when uniqid yields safe characters |
| GalleryApi.FallbackNoDot | api/index.php:47 | the fallback name `file_` + uniqid has a dot only when the uniqid suffix has one |
| GalleryApi.SanitizeAllSafe | api/index.php:43-48 | with a safe uniqid, every result is made of safe characters |
| GalleryApi.SanitizeIdempotent | api/index.php:43-48 | sanitising a sanitised name changes nothing (for the fallback, given a safe uniqid) |
| GalleryApi.AllowedExt | api/index.php:50-53 | an allowed extension has 3 or 4 characters and no dot |
| GalleryApi.LowerIdempotent | api/index.php:51 | lower-casing twice is lower-casing once |
| GalleryApi.AllowedExtIgnoresCase | api/index.php:50-53 | extensions that agree after lower-casing are allowed alike, so allowed_ext is case-insensitive |
| GalleryApi.Admit | api/index.php:119-122 | an upload fails at the first check exactly when the file is missing or its error is not UPLOAD_ERR_OK; an admitted extension is whitelisted |
| GalleryApi.AdmitChecks | api/index.php:119-122 | a received file is refused exactly when the extension of its sanitised name is not whitelisted; otherwise the stored extension is that extension lower-cased, and the name is a non-empty stem, a dot and the extension |
| GalleryApi.FallbackRefused | api/index.php:119-122 | with a dot-free uniqid (uniqid yields hex digits), a received file whose name cleans to a PHP-false string gets the extension-less fallback and is refused |
| GalleryApi.NewRecord | api/index.php:125-137 | the stored item has every field; its file is `id . "." . ext`, a PHP-true name; PHP-true alt, caption and tag are kept, and PHP-false ones fall back to the stem, the caption prefix + stem and "nature"; caption and tag are never PHP-false; createdAt is the given time |
| GalleryApi.View | api/index.php:140-147 | the public item carries the id and src `images/uploads/` + file (the bare prefix when there is no file); alt and caption are the stored ones or ""; tag is the stored one or "nature"; createdAt is the stored one or the given default |
| GalleryApi.UploadedRecordAgrees | api/index.php:130-147 | new record: file is id + "." + lower-cased extension; alt falls back to the stem, caption to prefix + stem, tag to "nature"; none is empty; the returned view matches it |
| GalleryApi.StoredWhen | api/index.php:119-138 | a file is stored exactly when it is admitted and moved, and its entry is the new record under the fresh id |
| GalleryApi.ProcessUpload | api/index.php:118-148 | a stored file puts its record under its id, adds its file to the directory and returns the record's view with src `images/uploads/` + file; any other file changes nothing and returns null |
| GalleryApi.UploadFrame | api/index.php:138 | storing under one id adds that key and changes no other entry; a fresh id grows the document by one and removing it gives back the old one |
| GalleryApi.NewEntries | api/index.php:95-112 | an upload request adds at most one entry per file |
| GalleryApi.NewEntriesStep | api/index.php:106-107 | one more file adds its entry when it is stored, and nothing otherwise |
| GalleryApi.StoreAllFrame | api/index.php:138 | storing a request's entries adds exactly their ids and keeps every other entry |
| GalleryApi.StoreAllStores | api/index.php:138 | with distinct ids each entry of the request is stored as given |
| GalleryApi.StoreAllSize | api/index.php:124-138 | with distinct fresh ids the document grows by exactly one entry per stored file |
| GalleryApi.UploadStep | api/index.php:106-107 | when the entries grow by one file's entry (or by nothing), one process_upload call changes the document, directory and answer exactly as that entry prescribes |
| GalleryApi.ProcessAll | api/index.php:83-112 | the files are processed in order: the document, the directory and the answer are those of the request's stored entries |
| GalleryApi.Upload | api/index.php:80-116 | a request without files is answered "No files" with nothing changed; otherwise the answer lists the views of the stored entries in file order, and the document and directory gain exactly those entries and files |
| GalleryApi.Update | api/index.php:150-173 | a missing or PHP-false id gives "Missing id" and an unknown one "Not found", both without change; otherwise only the supplied fields among captionText, tag and alt of that entry change, file, createdAt and all other entries stay, and the answer is the new view |
| GalleryApi.Delete | api/index.php:175-193 | a missing or PHP-false id gives "Missing id" and an unknown one "Not found", both without change; otherwise the document loses exactly that key and the directory loses the file the entry names, when that name is PHP-true |
| GalleryApi.Visible | api/index.php:62-65 | an entry is listed exactly when its file (default "") is PHP-true and present in the directory |
| GalleryApi.Listing | api/index.php:66-73 | a listed item has the entry's id and src, and its createdAt is the stored one or, when missing, the file time times 1000 |
| GalleryApi.List | api/index.php:58-78 | the listing holds exactly the views of the entries with a PHP-true, existing file (createdAt defaulting to the file time in milliseconds), each id once, newest first |
| GalleryApi.StoredRecordListed | api/index.php:61-73 | a record stored with its creation time and a just-written file is listed with the view an upload returns |
| GalleryApi.UploadThenList | api/index.php:118-148 | an upload returns an item exactly when the file is admitted and moved, and that item is in the next listing |
| GalleryApi.UpdateThenList | api/index.php:158-172 | after a caption update of a listed entry the answer and the next listing show the new caption |
| GalleryApi.DeleteTwice | api/index.php:180-189 | a delete succeeds and removes the id from the next listing; deleting again gives "Not found" |
| GalleryClient.ThemeMode | script.js:15 | Theme.get gives the stored mode, or "dark" when none (or "") is stored; it is never empty |
| GalleryClient.Opposite | script.js:17 | toggle gives "light" exactly when the current mode is not "light", and otherwise "dark" |
| GalleryClient.ToggleTwice | script.js:17 | two toggles restore "light" and "dark"; from any other stored mode they end at "dark" |
| GalleryClient.Theme.Get | script.js:15 | accessor: `get()` on the object is ThemeMode of its stored value, whose contract carries the promise |
| GalleryClient.Theme.constructor | script.js:16-18 | the stored mode is applied at start: the light attribute is set exactly for "light" |
| GalleryClient.Theme.Toggle | script.js:16-17 | toggle stores, applies and returns the opposite of the previous mode |
| GalleryClient.Dedup | script.js:83-85 | `Array.from(new Set(s))` keeps exactly the elements of s, without duplicates, and leaves a duplicate-free array unchanged |
| GalleryClient.DedupSnoc | script.js:83-85 | one more element keeps the earlier result and is appended only when new, so elements keep the order of their first occurrence |
| GalleryClient.AddedList | script.js:85-86 | the array add writes back holds exactly the old names and the new one, once each |
| GalleryClient.AddIdempotent | script.js:86 | adding the same name twice stores the same array as adding it once |
| GalleryClient.DefaultDeletes.constructor | script.js:81-83 | the object starts from the stored array |
| GalleryClient.DefaultDeletes.Has | script.js:87 | has holds exactly for the names in the stored array |
| GalleryClient.DefaultDeletes.Load | script.js:82-84 | load gives the names of the stored array, or the empty set when nothing parses |
| GalleryClient.DefaultDeletes.Add | script.js:85-87 | after add the name is present, no name is lost and no other is added |
| GalleryClient.MergeLabels | script.js:94-95 | getAll holds the four default keys and the stored ones; stored labels override defaults and defaults fill the rest |
| GalleryClient.ChosenLabel | script.js:96 | set stores the given label if non-empty, else the default for the tag, else the tag itself |
| GalleryClient.ChosenLabelEmpty | script.js:96 | the stored label is empty only when both the given label and the tag are |
| GalleryClient.MergeAbsorbs | script.js:95-96 | merging the defaults under a map that already has all four keys changes nothing |
| GalleryClient.FilterLabels.constructor | script.js:93-95 | the object starts from the stored labels |
| GalleryClient.FilterLabels.GetAll | script.js:95 | accessor: getAll on the object is MergeLabels of its stored labels, whose contract carries the promise |
| GalleryClient.FilterLabels.Set | script.js:96 | set writes back the merged labels with only the tag's label replaced, so getAll changes at that key alone |
| GalleryClient.AfterFilter | script.js:106-111 | filter keeps the cards and their order and sets each card's visibility to the match rule |
| GalleryClient.FilterShows | script.js:109-110 | a card is shown exactly when the filter is "all" or equals its tag; nothing but visibility changes |
| GalleryClient.FilterLastWins | script.js:106-111 | visibility after two filters depends on the last one only |
| GalleryClient.Grid.constructor | script.js:101-102 | the grid starts with the page's cards |
| GalleryClient.Grid.Filter | script.js:106-111 | the loop leaves the cards exactly as the filter rule prescribes |
| GalleryClient.Kept | script.js:274-279 | the surviving cards are exactly those whose src is empty or not remembered as deleted, none added |
| GalleryClient.KeptFilters | script.js:274-279 | the pass is an order-preserving filter: a single card survives exactly when its src is empty or not remembered, and the survivors of two runs of cards are each run's survivors, in order |
| GalleryClient.Grid.DropHiddenDefaults | script.js:274-279 | the start-up pass leaves exactly the cards whose src is empty or not remembered as deleted |
| GalleryClient.BuildCard | script.js:138-156 | a card is shown with the item's src; it carries an id exactly when the item's id is non-empty; tag, alt and caption are the item's, defaulting to "nature", "" and "" |
| GalleryClient.CardsOf | script.js:138-166 | one card per saved item, in the same order |
| GalleryClient.SavedBlockOldestFirst | script.js:284-287 | the saved block that the as-written loop leaves at the front of the grid is oldest first |
| GalleryClient.SavedOrderExample | script.js:284-287 | with two saved items of different age the as-written loop puts the older one at the front |
| GalleryClient.Grid.RenderSaved | script.js:283-290 | the saved items are sorted newest first (missing createdAt as 0); inserting each at the front leaves them reversed ahead of the old cards |
| GalleryClient.Grid.RenderSavedNewestFirst | script.js:284-287 | corrected rendering: the saved block at the front is the newest-first order itself |
| GalleryClient.NextIndex | script.js:125 | next moves to the following slide and wraps from the last to the first; with no slides, or from NaN, the index is NaN |
| GalleryClient.PrevIndex | script.js:126 | prev moves to the preceding slide and wraps from the first to the last; with no slides, or from NaN, the index is NaN |
| GalleryClient.NextPrevInverse | script.js:125-126 | prev undoes next and next undoes prev |
| GalleryClient.NextNFormula | script.js:125 | k presses of next from i lead to (i + k) mod n |
| GalleryClient.NextCycle | script.js:125 | n presses of next return to the starting slide |
| GalleryClient.Lightbox.constructor | script.js:121-122 | the lightbox starts empty at index 0, hidden |
| GalleryClient.Lightbox.Current | script.js:127 | update shows the slide at the index, or empty strings when there is none; a missing caption shows as "" |
| GalleryClient.Lightbox.Open | script.js:123 | open sets the collection and the index exactly and shows the lightbox; an index inside the collection is in range |
| GalleryClient.Lightbox.Close | script.js:124 | close hides the lightbox and keeps the collection and index |
| GalleryClient.Lightbox.Next | script.js:125 | next advances the index cyclically, and keeps it in range |
| GalleryClient.Lightbox.Prev | script.js:126 | prev steps the index back cyclically, and keeps it in range |
| GalleryClient.DigitsValue | script.js:212 | a single digit has its own value; a digit string not starting with "0" is at least 1, and at least 10 when it has two or more digits |
| GalleryClient.ChoiceNumber | script.js:212 | Number of a cancelled prompt and of "" is 0; a one-digit answer is that digit's value; an answer that is not all digits is NaN; a number is never negative |
| GalleryClient.LeadingZero | script.js:212 | a leading "0" does not change the number of an answer, so "02" counts as 2 |
| GalleryClient.DigitsLeadingZero | script.js:212 | a leading "0" keeps a digit string all digits and keeps its value |
| GalleryClient.CategoryFor | script.js:205-213 | the chosen category is always one of nature, city and abstract |
| GalleryClient.MultiDigitNature | script.js:212-213 | an answer of two or more digits without a leading zero (such as "12") is beyond the three entries and gives "nature" |
| GalleryClient.CategoryChoices | script.js:206-213 | "1", "2" and "3" pick nature, city and abstract |
| GalleryClient.CategoryOtherwise | script.js:212-213 | the category differs from nature exactly when the answer's number is 2 or 3 |
| GalleryClient.UploadAlt | script.js:313 | the alt text is the name without its final extension, with every `-` and `_` replaced by a space one for one; no dash or underscore remains |
| GalleryClient.UploadAltRoundTrip | script.js:313 | for a name without dashes or underscores, alt + "." + extension gives back the name |
| GalleryClient.UploadCaption | script.js:314 | the caption is the em-dash prefix followed by the alt text, or by "us" when the alt text is empty |
| GalleryClient.UploadedItem | script.js:312-314 | a saved upload carries that alt text and caption |

## Left out

- Filesystem and HTTP plumbing is not modelled: directory creation, `realpath`, the temp-file-and-rename in `write_meta`, `respond`/`exit`, and the route dispatch on `$_SERVER['REQUEST_METHOD']` and `action`. A failed `write_meta` is not modelled either. Each branch returns the new document as if the write succeeded.
- The uploads directory is a set of file names, and the moved flag of each upload takes the place of `move_uploaded_file`. `filemtime` is a function parameter, and `uniqid` and `microtime` values are parameters of each upload.
- JSON is not modelled. `read_meta` takes the decoder as a parameter. Record fields are strings or integers. JSON `null` values, non-string fields under the `(string)` casts of the update branch, and integer-like keys that PHP turns into integers are not represented.
- GalleryApi.Upload: the request arrives as the list of files after `$_FILES` normalisation, and an empty list stands for an empty `$_FILES`. A non-empty `$_FILES` that normalises to no files, which PHP answers with an empty item list, is not told apart.
- GalleryApi.CleanedReplacesOneForOne: works on characters, while `preg_replace` without the `u` flag works on bytes. A multi-byte character is replaced by one `_` here instead of one `_` per byte.
- GalleryApi.List, GalleryClient.Grid.RenderSaved: the order of equal createdAt values is not stated. The PHP array's key order and the IndexedDB `getAll` order, which a stable sort would keep for ties, are not modelled.
- `meta.json` itself, which sits in the uploads directory, is not among the model's file names. A record whose file is named `meta.json` is therefore not treated specially.
- Concurrent requests are not modelled: two read-modify-write cycles racing on `meta.json` cannot be stated sequentially.
- IndexedDB (`DB.open/getAll/put/remove`) is not modelled. `RenderSaved` receives the saved items as a parameter.
- Also not modelled: caption editing on blur, the client delete handler, the client upload loop (`FileReader`, the `image/` type check, `uid`), DOM construction beyond the card fields, focus trapping and key handling, and `Grid.getCols/setCols` and the layout chips.
- The `'id'` field that `process_upload` also writes into each stored record (api/index.php:131) is not part of Record. No branch reads it: the list and update branches take the id from the key.
- DefaultDeletes.Load: stored JSON that parses to something other than an array of strings (for example a string, which `new Set` would split into characters) is treated like a missing value.
- FilterLabels.GetAll: stored JSON that parses to something other than an object of strings is treated like a missing value. The inherited properties of JavaScript objects (`defaults['constructor']`) are not modelled.
- GalleryClient.ChoiceNumber: models `Number` only for a cancelled prompt, an empty answer and plain decimal digits. Answers with surrounding white space, signs, decimals, exponents, or hexadecimal, binary or octal literals (`0x2`, `0b10`, `0o2`), which `Number` also reads, are treated as NaN and give "nature".
- GalleryClient.Lightbox.Open: does not model `trapFocus`. The slides come from the cards through `rebuildLightboxItems`, which reads the DOM and is not modelled.
- `window.prompt`, `localStorage` reads and writes, and `Date.now` are parameters or field values.

## Findings

| source | as written | input that shows it | evidently intended | confidence | as-written member | corrected member |
|---|---|---|---|---|---|---|
| script.js:284-287 | the saved items are sorted newest first and then each is inserted before the grid's first child, so the saved block at the top ends up oldest first | two saved items with createdAt 1 and 2: the item created at 1 is shown first | newest first at the top, as the sort order and the insert-at-front of fresh uploads suggest | medium; not executed | GalleryClient.Grid.RenderSaved, GalleryClient.SavedOrderExample | GalleryClient.Grid.RenderSavedNewestFirst |
