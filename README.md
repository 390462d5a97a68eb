# filelight core in Dafny

This project models the core of `index.php` of filelight, a one-file PHP directory browser. The browser lists a directory below its own folder, lets a logged-in admin attach a one-line description to each file, and stores those descriptions in a `DESCRIPT.ION` file in each directory.

The core parts modelled are:

- **Directory confinement.** The `dir` request parameter is trimmed of slashes and joined to the base directory. `realpath` (the parameter `canon`) canonicalises the result. The directory is admitted only if the canonical path starts with the base (module `Confinement`).
- **The DESCRIPT.ION sidecar file** (modules `DescTable`, `SidecarGrammar` and `Sidecar`):
  - the PHP array the descriptions are kept in, an ordered association list;
  - the two readers: the update handler's splitter, and the page's extension-aware pattern with the splitter as fallback;
  - the edit, and the writer's line layout.
- **The listing** (module `Listing`):
  - hiding `.`, `..` and the hide list;
  - the case-insensitive search over names and descriptions;
  - the sort parameters and the `usort` comparator;
  - `usort` itself, as an in-place insertion sort on an array.
- **Small helpers:**
  - type and icon classification (`Classify`);
  - the breadcrumb and the column-header links (`Navigation`);
  - size formatting (`Format`);
  - the bcrypt-hash test of the configured password (`Config`).
- **The two requests** these parts serve: the description update and the directory page (`Requests`).

Strings are `seq<char>`, with one character per PHP byte and ASCII case rules. PHP truthiness is modelled explicitly: `""` and `"0"` are falsy. The comparisons `<=>`, `strcasecmp` and `strpos` are modelled as written. The filesystem is passed in as parameters:

- `canon` for realpath;
- `readFile` for is_readable plus reading the file;
- `write` for file_put_contents;
- `scandir` for the directory entries with their kind, size and mtime.

`strnatcasecmp` is a parameter `natcmp`. The results that need it assume only that its sign flips when the arguments are swapped.

Where the code and its description differ, the model follows the code:

- **Failed write.** The update answers "Could not write DESCRIPT.ION" when the write fails.
- **Containment test.** The test compares characters, not path components. A sibling directory whose name extends the base's name is admitted (`Confinement.SiblingPassesPrefixCheck`).
- **Missing `sort`.** A missing `sort` parameter leaves `$sort` null rather than `'name'`. The listing is still sorted by name, but no header link toggles to descending on the first click (`Navigation.UnsortedPageLinksAscend`).
- **A folder named "0".** `dir=0` is falsy. It lists the base directory, not a folder named "0" (`Confinement.FalsyDirIsBase`).
- **The page's breadcrumb.** The page shows the breadcrumb as the code builds it (`Navigation.BuildBreadcrumbAsWritten`), including the missing '/' after a first folder named "0" described under "## Findings". `Navigation.BuildBreadcrumb` is the corrected builder; `Requests.Browse` states that the two agree whenever the first folder's name is truthy.

## Model

| member | source | states |
|---|---|---|
| Text.TrimBy | index.php:90 | trim with a character list: no stripped character is left at either end, the string is unchanged when its ends are already clean, and the result is empty exactly when every character is stripped |
| Text.Lines | index.php:124-125 | file() with FILE_IGNORE_NEW_LINES: lines contain no '\n' |
| Text.LinesAppend | index.php:125 | text that ends at a line boundary splits independently of what follows |
| Text.StrIPosFinds | index.php:219-221 | stripos finds q exactly when q occurs in the text ignoring ASCII case |
| Text.StrPosZeroIsPrefix | index.php:94 | `strpos($h, $n) === 0` holds exactly when n is a prefix of h |
| Text.Explode | index.php:348 | explode gives at least one part and no part contains the separator |
| Text.ImplodeExplode | index.php:348-353 | implode of an explode with the same separator gives the string back |
| Text.PadRight | index.php:150 | str_pad: the string followed by spaces up to the width, unchanged when already as wide |
| DescTable.Lookup | index.php:279-280 | the value of a key, None when absent |
| DescTable.Put | index.php:139 | assignment: the key maps to the value, every other key keeps its value, a new key is appended and an existing one keeps its place |
| DescTable.Remove | index.php:137 | unset: the key is gone, every other pair stays, and an absent key leaves the table as it was |
| DescTable.RemoveCutsOnePair | index.php:137 | with unique keys, unsetting a present key cuts out exactly its pair and keeps the others in their order, the order the writer emits |
| DescTable.PutKeepsKeysUnique | index.php:130-139 | assignment never makes a key appear twice |
| DescTable.RemoveKeepsKeysUnique | index.php:137 | unset never makes a key appear twice |
| DescTable.MemberLookup | index.php:144 | in a table without repeated keys, every pair the foreach visits is what its key looks up |
| SidecarGrammar.SplitFields | index.php:128-130 | preg_split on `\s{2,}` or a tab, limit 2: two parts exactly when the pattern matches, split at the leftmost match, the greedy run of white space consumed |
| SidecarGrammar.SplitFieldsOfJoined | index.php:128-150 | a name and a description joined by a tab or by two or more spaces split back into that name and description |
| SidecarGrammar.ExtensionMatchIsLongest | index.php:182-187 | the display pattern matches exactly when some prefix ends in `.<known extension>` followed by white space and more text; group 1 is the LONGEST such prefix and group 3 what follows the white space |
| SidecarGrammar.ExtensionMatchOneDot | index.php:182-187 | on a line with one dot before a known extension, the pattern yields that filename and the description after the white space |
| SidecarGrammar.OneEndPerDot | index.php:183 | two alternatives of the extension list cannot both match after the same dot |
| Sidecar.ReadForUpdate | index.php:122-133 | the update handler's loop builds the table Read(lines, false) |
| Sidecar.ReadForDisplay | index.php:175-195 | the page's loop builds the table Read(lines, true): the pattern first, the splitter otherwise |
| Sidecar.ReadKeepsLastLine | index.php:125-131 | each filename gets the description of the last line naming it; blank lines, comments and lines without two fields add nothing |
| Sidecar.ReadHasUniqueKeys | index.php:125-131 | a table read from a file never holds a filename twice |
| Sidecar.BlankAndCommentLinesAddNothing | index.php:125-131 | a blank line, a `#` comment, a pair four spaces apart and a pair a tab apart read as exactly those two pairs, in order |
| Sidecar.DisplayBlankAndCommentLinesAddNothing | index.php:176-194 | on the page, the same four-line file with one-dot names ending in a listed extension reads, through the extension pattern, as the same two pairs the update reader gets |
| Sidecar.DisplayLineReads | index.php:182-187 | a one-dot filename with a listed extension, white space and a description without a dot are one entry on the page |
| Sidecar.JoinedLineReads | index.php:126-130 | a readable name and description joined by a tab or a run of spaces are one entry of the update reader |
| Sidecar.Apply | index.php:136-140 | an empty description removes exactly that filename, any other sets exactly it; every other filename keeps its description |
| Sidecar.ApplyIsWritable | index.php:136-140 | an edit with a writable name and description keeps the table writable |
| Sidecar.Render | index.php:143-153 | the writer's loop produces Serialise(t) |
| Sidecar.Kept | index.php:145 | the pairs written are those with a non-empty description |
| Sidecar.LayoutColumns | index.php:147-151 | a name longer than 28 characters is followed by one tab; a shorter one is padded with spaces to 30 columns; the description ends the line |
| Sidecar.SerialisedLines | index.php:143-153 | the written text is one '\n'-terminated line per pair with a non-empty description, and nothing else |
| Sidecar.LayoutReadsBack | index.php:126-151 | the update reader reads back exactly the pair the writer laid out |
| Sidecar.KeptIsWritable | index.php:145 | dropping empty descriptions keeps a table writable |
| Sidecar.ReadLayouts | index.php:125-151 | reading the laid-out lines of a writable table of non-empty descriptions gives the table back |
| Sidecar.RoundTrip | index.php:122-153 | reading back what the writer emits gives the same table, in order, less the pairs with empty descriptions |
| Sidecar.KeptLookup | index.php:145 | after writing, a filename looks up its old description unless that was empty |
| Sidecar.EditIsReadBack | index.php:122-153 | after an edit and a reload the edited filename has the new description, or none when cleared, and every other filename keeps what it had |
| Sidecar.DisplayMisreadsDottedDescription | index.php:147-187 | a description that holds a known extension followed by white space and more text is not read back by the page: the greedy group runs the filename into the description |
| Sidecar.GreedyGroupOvershoots | index.php:182-187 | on such a line the pattern's group 1 is longer than the written filename |
| Sidecar.MatchedNameIsTrimmed | index.php:187 | group 1 of a trimmed line needs no further trimming |
| Confinement.BrowseRel | index.php:90 | the page's rel has no slash or backslash at either end |
| Confinement.ResolveAdmits | index.php:91-97 | a directory is admitted exactly when realpath of the joined path exists and starts with the base, and it is that canonical path |
| Confinement.FalsyDirIsBase | index.php:90-91 | an empty, "0" or slashes-only `dir` lists the base itself |
| Confinement.SlashesTrimAway | index.php:90 | a `dir` of only slashes and backslashes trims to "" |
| Confinement.SiblingPassesPrefixCheck | index.php:94 | any canonical path that starts with the base's characters is admitted, siblings such as base + "2" included |
| Confinement.AdmittedStartsWithBase | index.php:89-97 | every admitted directory starts with the base |
| Classify.LastIndexOf | index.php:236 | the last occurrence of the character, None exactly when absent |
| Classify.Extension | index.php:236 | pathinfo's extension: the text after the last dot, no dot in it, "" without a dot |
| Classify.TypeLabel | index.php:237-248 | every mapped type label is non-empty |
| Classify.FileTypeEmptyIff | index.php:235-250 | a mapped extension in any case shows its label; the type is empty exactly when the extension is missing or "0" |
| Classify.UnknownExtensionIsUpperCased | index.php:249 | an unmapped extension shows upper-cased |
| Classify.IconFollowsType | index.php:307-340 | an extension has an icon exactly when it has a type and is not aac or tar, and the icon is its type's family |
| Classify.FileIconCases | index.php:302-341 | a directory shows the folder icon; a file the icon of its type's family, else the generic icon |
| Classify.ExtensionOfLower | index.php:236 | the extension of a lower-cased name is the lower-cased extension |
| Classify.ClassificationIgnoresCase | index.php:235-341 | type and icon do not depend on the case of the filename |
| Listing.Filter | index.php:219-222 | array_filter keeps exactly the elements the predicate accepts, in order, each as often as before |
| Listing.ListedIff | index.php:211-223 | an entry is listed exactly when it is not "." or "..", not hidden, and q is empty or occurs in its name or description ignoring case |
| Listing.SearchScenario | index.php:217-223 | searching "note": a file without a description drops out and one described as "release notes" stays |
| Listing.NormaliseSort | index.php:228-229 | `$sort` is null exactly when the parameter is absent; a present parameter other than date, size, type or description sorts by name |
| Listing.Spaceship | index.php:266-271 | `<=>` is -1, 0 or 1 with the sign of the difference |
| Listing.LexCompare | index.php:276-281 | the sign of strcmp, zero exactly for equal strings |
| Listing.LexCompareOrder | index.php:276-281 | the comparison is the byte-wise order and swapping the arguments negates it |
| Listing.CompareAntisymmetric | index.php:255-287 | the comparator's sign flips when the entries are swapped, for every column and order |
| Listing.DirectoriesFirst | index.php:261-286 | a directory precedes a file in either order; within one kind, desc negates the comparison |
| Listing.TypeSortTiesDirectories | index.php:274-276 | by type, all directories compare equal ("Dir") |
| Listing.SizeSortIgnoresDirectorySize | index.php:269-271 | by size, a directory counts as 0 |
| Listing.ComparatorConsistent | index.php:255-287 | the comparator is consistent whenever strnatcasecmp is |
| Listing.Insert | index.php:255 | one insertion step adds one element |
| Listing.InsertPermutes | index.php:255 | an insertion step adds exactly the inserted element |
| Listing.InsertOrdered | index.php:255 | an insertion step keeps an ordered sequence ordered |
| Listing.SortPermutes | index.php:255 | sorting only reorders: same elements, each as often |
| Listing.SortOrders | index.php:255-287 | with a consistent comparator every element is placed no later than the next |
| Listing.OrderedPutsDirectoriesFirst | index.php:261-262 | in a listing ordered by the comparator no file precedes a directory |
| Listing.Usort | index.php:255 | the in-place sort leaves the array holding the insertion-sorted old contents |
| Listing.InsertAt | index.php:255 | moving one element left into the sorted prefix by adjacent swaps inserts it and leaves the rest |
| Listing.SizeDescScenario | index.php:255-287 | a folder, a 10-byte and a 500-byte file by size, descending: the folder, then the larger file, then the smaller |
| Navigation.Trail | index.php:346-356 | one crumb per part |
| Navigation.BuildBreadcrumb | index.php:346-356 | the loop builds the intended trail: crumb k links to the first k + 1 parts joined by '/' |
| Navigation.BuildBreadcrumbAsWritten | index.php:346-356 | the loop as written builds AsWrittenTrail, adding '/' only after a truthy path |
| Navigation.BreadcrumbEndsAtRel | index.php:346-356 | one crumb per folder of rel, named after it in order, and the last links to rel itself |
| Navigation.AsWrittenAgrees | index.php:350-353 | the code as written builds the intended trail whenever the first folder's name is truthy |
| Navigation.AsWrittenPathJoins | index.php:350-353 | the written path is the joined parts when the first part is truthy |
| Navigation.ZeroFolderBreadcrumb | index.php:352 | for rel "0/x" the code as written links the crumb "x" to "0x" instead of "0/x" |
| Navigation.SortLinkToggles | index.php:371-379 | a header link sorts by its column, descending exactly when the page is sorted by it ascending |
| Navigation.UnsortedPageLinksAscend | index.php:372 | without a `sort` parameter every header links to ascending order |
| Format.UnitOf | index.php:293-296 | B below 1024, KB below 1048576, MB below 1073741824, else GB |
| Format.UnitFits | index.php:293-296 | the unit is never larger than the size, and below GB the size is under 1024 units |
| Format.Tenths | index.php:294-296 | number_format to one decimal, in tenths: the nearest tenth, halves up |
| Format.TenthsIsNearest | index.php:294-296 | no other tenth is closer to the exact quotient |
| Format.GroupedIsDecimal | index.php:294-296 | number_format's thousands separators are all it adds to the decimal digits |
| Format.FormatSizeReads | index.php:292-297 | below 1024 the size prints as an integer of bytes; above, its digits read back to the nearest tenth of the unit |
| Format.RoundingReachesNextUnit | index.php:294 | 1048575 bytes print as "1,024.0 KB": the unit is chosen before rounding |
| Format.TenthsOfMultiple | index.php:294-296 | a whole number k of units rounds to exactly 10k tenths |
| Format.WholeUnits | index.php:292-297 | k whole KB or MB (k below 1024), or k whole GB, print as k with thousands separators and ".0", then the unit |
| Format.SmallSizes | index.php:292-297 | 512 gives "512 B" and 2048 gives "2.0 KB" |
| Format.LargeSizes | index.php:292-297 | 5242880 gives "5.0 MB" and 2147483648 gives "2.0 GB" |
| Config.BcryptHashIff | index.php:17-19 | a hash is at least 60 characters starting with "$2" |
| Config.DefaultPasswordIsPlain | index.php:10-41 | the default "admin123" is taken as a plain password |
| Requests.SidecarPath | index.php:121 | the sidecar path lies inside the directory's path |
| Requests.UpdateDescription | index.php:89-160 | Forbidden when the page's `dir` is outside the base, then "Admin access required", then "Invalid directory", else the serialised edit of the local sidecar is written and the reply is success or "Could not write DESCRIPT.ION" |
| Requests.SavedEditReadsBack | index.php:115-153 | a saved edit is what the next update reads, in a directory that starts with the base |
| Requests.Browse | index.php:89-358 | Forbidden outside the base; else the directory's own sidecar or else the base's, read by the display loader; the visible, searched entries sorted by the comparator of the normalised column and order; and the breadcrumb as the code builds it, which is the intended trail whenever the first folder's name is truthy |
| Requests.ListingIsSortedSearch | index.php:211-287 | the page lists exactly the visible entries matching the search, each as often as scanned, directories first, ordered by the comparator |
| Requests.RootPage | index.php:90-97 | with no `dir`, or only slashes, the page lists the base and has no breadcrumb |

## Left out

- Sessions, login and logout, password_hash and password_verify, and rewriting the config file (index.php:4-84). Only the bcrypt test and the three-way choice of how the stored value is taken are modelled.
- Non-string config values: `filelight_is_bcrypt_hash` also checks `is_string`. The model's value is always a string.
- Loading types.json (index.php:200-206). It is never used.
- The HTML, CSS and embedded JavaScript, and htmlspecialchars and rawurlencode. rawurlencode is the parameter `encode` of `Navigation.SortLink`. filelight_buildPath is not part of this model.
- The real filesystem: realpath, is_readable, file, file_put_contents, scandir, is_dir, filesize and filemtime are parameters or fields of `Entry`.
- strnatcasecmp is the parameter `natcmp`, not PHP's natural-order algorithm.
- Locking and concurrent edits of DESCRIPT.ION. The code does none.
- Request parameters given as arrays. Every parameter is a string or absent.
- Listing.Usort: proved equal to insertion sort, whose result is ordered and a permutation. PHP's zend_sort is a different stable algorithm. The two give the same order whenever strnatcasecmp is a total preorder. Stability itself is not stated.
- Format.FormatSize: the quotient is exact and rounded in integer tenths. This matches the double division for files below 2^53 bytes, and larger files are not modelled.
- Sidecar.DisplayMisreadsDottedDescription: the display pattern is shown to misread such lines only through general lemmas. There is no lemma on a concrete line of text.
- FILE_SKIP_EMPTY_LINES in the page's read (index.php:177) is not modelled separately. Empty lines are skipped by the blank-line test anyway.

## Findings

| source | as written | input that shows it | evidently intended | confidence | as-written member | corrected member |
|---|---|---|---|---|---|---|
| index.php:352 | `$path .= ($path ? '/' : '') . $part` adds the separator only after a truthy path, and the path "0" is falsy | `dir=0/x`: the crumb "x" links to `dir=0x` | the crumb "x" links to `0/x`, the first k + 1 parts joined by '/' | high; not executed | Navigation.ZeroFolderBreadcrumb | Navigation.BuildBreadcrumb |
