# wlmenu core, modelled in Dafny

wlmenu is a Wayland application launcher. It collects the executables
reachable through `$PATH`, keeps them in a cache file under
`~/.cache/wlmenu/`, and shows a one-line input field above a list of
matching rows. This project models the parts of wlmenu that are plain
sequential logic and proves properties of them:

- **The catalog loader** (`src/load.c`). It covers the hybrid sort, with
  16-element insertion-sort blocks and bottom-up merging between the list
  and a scratch buffer. The comparator `strverscmp` is a parameter that
  must be a total preorder. It also covers the in-place `dedup`, the
  cache-freshness test `cache_ok` over `(sec, nsec)` times, the cache
  writer and reader, the directory scan filter, `do_load` and `load`. The
  file system is data: a map of modification times, a map of file
  contents, a map from directory to its entries, and a set of writable
  paths.
- **The configuration file** (`src/config.c`). The parser is a class
  whose cursor and line counter advance over a NUL-terminated buffer. It
  writes NULs into the buffer to cut out the strings. It is proved
  against a recursive grammar (`ConfigSyntax`) whose errors carry the line
  and the reason the source dies with. The entry store is a class with
  `config_add_entry`, the `(section, key)` sort, the binary search of
  `config_get_index` and the typed getters.
- **The string helpers** (`src/util/string-util.c`, `src/util/string-util.h`):
  concatenation, bounded concatenation with truncation, `streq`,
  `strneq`, and in-place case mapping.
- **The bounded UI state**: the widget's input line, rows and highlight
  (`src/widget.c`), and the text box (`src/textbox.c`).
- **The option loop of `main`** and `get_config_path` (`src/main.c`).

C strings are `seq<char>`. `CString.CStr` reads a buffer up to its
first NUL. `strcmp`, `strncmp`, `strcasecmp` and `strncasecmp` are
defined over C-locale ASCII, and so are the `ctype` predicates.

Modules and files: `Status` (status.dfy), `CString` (cstring.dfy),
`Sorting` (sorting.dfy), `StringUtil` (string_util.dfy), `Load`
(load.dfy), `ConfigSyntax` (config_syntax.dfy), `ConfigRender`
(config_render.dfy), `ConfigStore` (config_store.dfy), `ConfigParser`
(config_parser.dfy), `TextInput` (text_input.dfy), `Widget` (widget.dfy),
`Textbox` (textbox.dfy), `Args` (args.dfy).

## Model

| member | source | states |
|---|---|---|
| Sorting.HybridSortCorrect | src/load.c:62-133 | The sort's result is ordered by the comparator and is a permutation of its input, for any total-preorder comparator. |
| Sorting.HybridSortStable | src/load.c:62-133 | The sort is stable: for every x, the elements that compare equal to x appear in the result in the same order as in the input. |
| Sorting.InsertStable | src/load.c:81-88 | The insertion loop moves the item only past elements that compare strictly greater (`> 0`), so the item stays behind every element it ties with. |
| Sorting.InsertionSortStable | src/load.c:78-89 | Insertion-sorting a block keeps the input order of equal elements. |
| Sorting.MergeStable | src/load.c:41-60 | On a tie `merge` takes the left run's head (`<= 0`), so equal elements of the left run come before those of the right run, each run in its own order. |
| Sorting.SortBlocksStable | src/load.c:71-90 | The first phase keeps the input order of equal elements. |
| Sorting.MergePassStable | src/load.c:98-110 | A merge pass over ordered runs keeps the input order of equal elements. |
| Sorting.PassesStable | src/load.c:94-132 | The repeated merge passes keep the input order of equal elements. |
| Sorting.InsertionSortSorted | src/load.c:78-89 | Inserting each element in turn, moving it left past every element that compares greater, yields an ordered block. |
| Sorting.InsertionSortPerm | src/load.c:78-89 | The insertion pass only rearranges the block: same multiset. |
| Sorting.InsertSorted | src/load.c:81-88 | Inserting one element into an ordered prefix keeps it ordered. |
| Sorting.InsertPerm | src/load.c:81-88 | Inserting one element adds exactly that element. |
| Sorting.MergeSorted | src/load.c:41-60 | Merging two ordered runs gives an ordered run. |
| Sorting.MergePerm | src/load.c:41-60 | A merge outputs exactly the elements of both runs. |
| Sorting.SortBlocksRuns | src/load.c:71-90 | After the first phase, every block `[i, min(i+16, size))` is ordered; the last block is cut at `size`. |
| Sorting.SortBlocksPerm | src/load.c:71-90 | The first phase is a permutation. |
| Sorting.MergePassRuns | src/load.c:98-110 | One merge pass over runs of width w leaves ordered runs of width 2w. |
| Sorting.MergePassPerm | src/load.c:98-110 | A merge pass is a permutation. |
| Sorting.PassesSorted | src/load.c:94-132 | Repeating merge passes while the width is below the size ends with one ordered run. |
| Sorting.PassesPerm | src/load.c:94-132 | Repeated merge passes are a permutation. |
| Sorting.InsertAt | src/load.c:78-88 | Shifting the slots that compare greater one to the right and dropping the item into the gap leaves the block equal to the insertion of that item. |
| Sorting.InsertionSortRange | src/load.c:72-90 | The in-place insertion loop over `[lo, hi)` leaves that range equal to its insertion sort and every other slot unchanged. |
| Sorting.CopyRun | src/load.c:55-59 | Copying the tail of one run places exactly those slots at the output position. |
| Sorting.MergeHeads | src/load.c:48-53 | The head loop of `merge` emits a prefix of the merge and stops when one run is used up; the rest of the merge is that of the remaining runs. |
| Sorting.MergeRuns | src/load.c:41-60 | `merge` writes the merge of the two runs at the output position and nothing else, also when source and destination are the same array without overlap. |
| Sorting.SortBlocksInPlace | src/load.c:71-90 | The first phase leaves the array equal to the block-sorted sequence. |
| Sorting.MergePair | src/load.c:99-109 | One iteration of the pass loop clamps `j` and `k` to the size and merges `[i, j)` with `[j, k)`. |
| Sorting.MergePassRange | src/load.c:98-110 | One pass loop writes the merge pass of the source range into the destination. |
| Sorting.Sort | src/load.c:62-133 | After `sort`, the first `size` slots of the list hold the hybrid sort of their old contents, so the result ends in the list, not in the scratch buffer. Slots beyond `size` are untouched. The buffer may be the upper part of the same array, as in `src/config.c:155`. |
| CString.StrCmpZeroIffEqual | src/util/string-util.h:46-49 | On NUL-free strings `strcmp` returns 0 exactly for equal strings. |
| CString.StrCmpSwap | src/config.c:49-57 | Swapping the arguments of `strcmp` negates the result. |
| CString.StrCmpTrans | src/config.c:49-57 | `strcmp` is transitive, as the sort requires. |
| CString.StrCaseCmpZeroIff | src/config.c:566-568 | `strcasecmp` returns 0 exactly when the lower-cased strings are equal. |
| CString.StrCaseCmpNoUpper | src/config.c:566-568 | Without upper-case letters, `strcasecmp` agrees with `strcmp`. |
| CString.StrNCmpZeroIff | src/util/string-util.h:51-54 | `strncmp(a, b, n)` is 0 exactly when the first n characters of both C strings agree. |
| Load.StrSep | src/load.c:165-166 | `strsep` returns the text before the first separator and leaves the rest after it, or the whole string and NULL. |
| Load.JoinSplit | src/load.c:165-166 | Splitting a path on ':' and joining the tokens again gives back the path; empty components are tokens too. |
| Load.SplitJoin | src/load.c:279-280 | Joining separator-free components and splitting again gives them back. |
| Load.FreshIff | src/load.c:165-177 | The loop over the components is true exactly when every component exists and none is strictly later than the cache, comparing seconds first, then nanoseconds. |
| Load.CacheOkIff | src/load.c:147-180 | `cache_ok` is false when the cache cannot be stat'ed or any component cannot be, or is later; otherwise it is true. |
| Load.SameTimeIsFresh | src/load.c:172-176 | A directory with the cache's own modification time counts as fresh. |
| Load.TouchInvalidates | src/load.c:172-176 | Making any component later than the cache makes the cache stale. |
| Load.Grow | src/load.c:234-235 | A full list's capacity becomes `n_max * 2 - n_max / 2`, strictly more than before. |
| Load.NameList.constructor | src/load.c:184 | A new list is empty, with room for 4096 names. |
| Load.NameList.Push | src/load.c:234-245 | Appending keeps all earlier names and adds the new one last; a full list grows first. |
| Load.LinesSnoc | src/load.c:261-262 | Each name adds one line `name\n` to the end of the output. |
| Load.CacheWrite | src/load.c:253-265 | The file holds the fixed four-line header and then each of the first `size` names on its own line. If `fopen` fails, nothing is written. |
| Load.Filter | src/load.c:225-232 | Every line kept is non-empty and starts with neither '#', ';' nor white space. |
| Load.TrimEndAtNul | src/load.c:228-229 | The trailing-space loop starts at the NUL, so it never trims anything. |
| Load.FilterAppend | src/load.c:221-246 | Filtering is line by line: filtering two parts is filtering their concatenation. |
| Load.CacheRead | src/load.c:182-251 | The list read back is the file's lines, split on '\n', without the empty lines, the comment lines and the lines starting with white space, in file order and verbatim. |
| Load.FilterKept | src/load.c:225-232 | Lines that pass the filter are kept unchanged. |
| Load.HeaderSkipped | src/load.c:259 | The reader skips every line of the header the writer emits. |
| Load.CacheRoundTrip | src/load.c:221-262 | Reading what `cache_write` wrote gives back the same names, when names are non-empty, hold no '\n' and start with neither '#', ';' nor white space. |
| Load.ScanDirSnoc | src/load.c:289-319 | Each directory entry adds its name exactly when it is selected. |
| Load.ScanPathSnoc | src/load.c:279-320 | The scan visits the components in order; a directory that cannot be opened adds nothing. |
| Load.ScanDirMember | src/load.c:297-302 | A name comes from a directory exactly when an entry with that name stats successfully, is a regular file and has `S_IXUSR` set. |
| Load.ScanPathMember | src/load.c:279-320 | A name is in the scan exactly when some readable component holds such an entry. |
| Load.ScanInto | src/load.c:289-319 | Reading one directory appends its selected entries in order. |
| Load.Scan | src/load.c:279-320 | The scan loop's list equals the selected names of all components, in path order. |
| Load.Dedup | src/load.c:135-145 | `dedup` as written: the list starts with the compaction of the input, the rest of the array is untouched, and the return value is the index of the last kept name, not a count. |
| Load.DedupStep | src/load.c:139-142 | One iteration keeps the compacted prefix and writes `list[++i]` only when the next name differs from the last kept one. |
| Load.DedupCount | src/load.c:135-145 | The corrected `dedup` returns the number of kept names, and the list starts with exactly those. |
| Load.DedupIndexDropsLast | src/load.c:144 | On `["ls"]` the index returned is 0 although one name is kept. |
| Load.CompactAdjacent | src/load.c:139-142 | After compaction no two adjacent names are equal under `strcmp`. |
| Load.CompactLast | src/load.c:139-142 | The last kept name equals the last input name. |
| Load.CompactFrom | src/load.c:139-142 | Compaction only keeps names from the input. |
| Load.CompactKeeps | src/load.c:139-142 | Every input name survives compaction. |
| Load.CompactSorted | src/load.c:139-142 | Compacting an ordered list keeps it ordered. |
| Load.CompactDistinct | src/load.c:322-323 | Compacting a sorted list under an antisymmetric comparator leaves no duplicates at all. |
| Load.SortCompact | src/load.c:322-323 | Sorting then compacting gives a sorted list of distinct names with exactly the scanned names. |
| Load.SortNames | src/load.c:322 | Sorting the list in place gives the hybrid sort of its first `size` names and leaves the rest alone. |
| Load.PathLeft | src/load.c:165-166 | After `cache_ok`, the path buffer it shares with `do_load` reads as the first component alone once the cache file stats, because `strsep` wrote a NUL over the first ':'. It reads as the whole path when the cache does not stat. |
| Load.LoadSpec | src/load.c:267-328 | `do_load` as written. Whenever a cache file is written, it is the cache text of exactly the names returned. |
| Load.LoadSpecFixed | src/load.c:267-328 | `do_load` as evidently intended, with the whole path rescanned and the kept-name count. Whenever a cache file is written, it is the cache text of exactly the names returned. |
| Load.MissNamesAsWritten | src/load.c:322-327 | Taking `dedup`'s index as the count returns the compacted names with the last one cut off. |
| Load.DoLoad | src/load.c:267-328 | `do_load` as written. On a fresh cache it returns the names read from the cache, without sorting or deduplicating. Otherwise it scans what `cache_ok` left of the path, sorts, compacts, takes `dedup`'s index as the count, and writes the cache when it can. |
| Load.DoLoadFixed | src/load.c:267-328 | The corrected `do_load`: on a miss it scans every component of the path and keeps every compacted name. |
| Load.RescanFirstOnly | src/load.c:165-280 | PATH `/a:/b` with the cache older than `/a` and one executable in each directory: as written the rescan finds only the one in `/a`. The corrected rescan also finds the one in `/b`. |
| Load.CachePath | src/load.c:348-352 | The cache path is HOME followed by the 20-character suffix `/.cache/wlmenu/cache`. |
| Load.Load | src/load.c:330-355 | `load` dies without PATH, then without HOME. Otherwise it behaves as `do_load` as written (`Load.LoadSpec`) on one copy of PATH and the derived cache path. |
| Load.LoadMissDropsLast | src/load.c:323-327 | On a cache miss `do_load` as written loses a name of every non-empty scan. |
| Load.LoadMissKeepsAll | src/load.c:279-327 | On a cache miss the corrected `do_load` returns sorted, distinct names, exactly those found in all the components of the path. |
| Load.MissFromScan | src/load.c:279-323 | Every name the corrected `do_load` returns on a cache miss was found by the scan. |
| Load.ReloadReadsBack | src/load.c:267-328 | After a miss of the corrected `do_load` that wrote the cache, the next run on a fresh cache returns the same names. |
| ConfigSyntax.NewlinesJoin | src/config.c:181-183 | Line counting is additive over adjacent stretches of the buffer. |
| ConfigSyntax.Span | src/config.c:256-257 | A scan over a character class stops at the first character outside it, inside the buffer. |
| ConfigSyntax.SkipComment | src/config.c:175-191 | A comment ends after its newline, with the line counted, or at the NUL. |
| ConfigSyntax.EndLine | src/config.c:193-221 | After a section header only blanks or a comment may follow before the newline. Any other character is an error on the current line. |
| ConfigSyntax.SectionClose | src/config.c:274-277 | A ']' right after the name ends it, and the rest of the line is checked. Any other character after blanks is reported with the corrected bracket report. |
| ConfigSyntax.BracketAfterBlanks | src/config.c:278-297 | After blanks behind the name only ']' is accepted. Anything else is reported with the character found there. |
| ConfigSyntax.SectionName | src/config.c:223-302 | An accepted section name is `[A-Za-z]+`. The cursor ends at a line start and the line count covers the newlines read. A misplaced ']' is reported with the corrected bracket report. |
| ConfigSyntax.SectionNameFrom | src/config.c:256-302 | From its first letter, a section name runs over letters and is closed as above, with the corrected bracket report. |
| ConfigSyntax.Key | src/config.c:304-348 | An accepted key is alphanumeric, non-empty when it starts with a letter, and read without crossing a line. |
| ConfigSyntax.KeyEnd | src/config.c:317-331 | A key ends at '=' or ':', or at blanks after which one optional '=' or ':' is consumed. |
| ConfigSyntax.Value | src/config.c:350-417 | An accepted value is non-empty and made of graphic characters other than '#' and ';'. |
| ConfigSyntax.ValueFrom | src/config.c:385-417 | From its first character, a value runs over value characters. |
| ConfigSyntax.ValueEnd | src/config.c:386-413 | A value ends at a newline, the NUL, a comment, or a blank followed only by blanks or a comment. |
| ConfigSyntax.Prepend | src/config.c:458 | Entries already read stay in front of what follows; an error passes through unchanged. |
| ConfigSyntax.SectionBody | src/config.c:423-459 | A section body ends at the next '[' or at the NUL. Every pair in it carries the section's name, a key and a value. |
| ConfigSyntax.SectionEntry | src/config.c:443-458 | A pair starting with a letter is read as key then value, and recorded under the latest section. |
| ConfigSyntax.Section | src/config.c:419-460 | A section yields well-formed entries, in file order, with the corrected bracket report. |
| ConfigSyntax.SectionThenDocument | src/config.c:483-485 | After a section the document continues at the next '[' or ends at the NUL. |
| ConfigSyntax.Gap | src/config.c:473-482 | Blanks, newlines and comments outside sections are skipped, and newlines are counted. |
| ConfigSyntax.Document | src/config.c:471-494 | Outside sections only blanks, newlines and comments are accepted. The document ends at the NUL. A misplaced ']' is reported with the corrected bracket report. |
| ConfigSyntax.Parse | src/config.c:462-495 | A parse that succeeds yields well-formed entries and counts every newline it consumed, starting from line 1. A misplaced ']' is reported with the corrected bracket report. |
| ConfigSyntax.BracketReportAsWritten | src/config.c:290-293 | The error message reads the character after the offending one, which lies past the buffer when the offending one is the NUL. |
| ConfigSyntax.BracketReportFinding | src/config.c:290-293 | For `[ab x]` the parser reports 'x' while the as-written message prints ']'. For `[ab ` at the end of file the message reads past the buffer. |
| ConfigSyntax.ParseAcceptsBlankSeparator | src/config.c:317-327 | `font mono` without '=' or ':' is accepted as a pair. |
| ConfigSyntax.ParseRejectsDigitInSection | src/config.c:278-283 | A digit in a section name is an error on its line. |
| ConfigSyntax.ParseRejectsKeyOutsideSection | src/config.c:488-491 | A key outside any section is an error. |
| ConfigSyntax.ParseRejectsEmptyValue | src/config.c:360-363 | An empty value is an error on the line of the key. |
| ConfigRender.DocumentReadsRender | src/config.c:462-495 | Parsing the rendering of well-formed entries reads them back one by one. |
| ConfigRender.ParseRender | src/config.c:462-495 | Rendering well-formed entries as `[section]` lines and `key=value` lines, and parsing that text, gives back the same entries, one line per line break. |
| ConfigStore.EntryCmpSwap | src/config.c:49-57 | Swapping two entries negates `entry_cmp`. |
| ConfigStore.EntryCmpTrans | src/config.c:49-57 | `entry_cmp` is transitive. |
| ConfigStore.EntryCmpTotalPreorder | src/config.c:49-57 | `entry_cmp` is a total preorder, so the hybrid sort applies to entries. |
| ConfigStore.EntryCmpZeroIff | src/config.c:49-57 | `entry_cmp` is 0 exactly for entries with the same section and key. |
| ConfigStore.InitialSize | src/config.c:541 | The initial capacity is one entry per 80 bytes of file, rounded down. |
| ConfigStore.GrowAsWritten | src/config.c:163-165 | The as-written growth enlarges a non-empty array but maps capacity 0 to 0. |
| ConfigStore.Grow | src/config.c:163-165 | The corrected growth always enlarges the array and agrees with the source when the capacity is positive. |
| ConfigStore.GrowFromEmptyFile | src/config.c:541 | A 15-byte file starts at capacity 0; as written it stays at 0, corrected it becomes 1. |
| ConfigStore.QuerySection | src/config.c:554-561 | A query splits at its first '.' into a section and a key. |
| ConfigStore.ProbeZeroIff | src/config.c:566-568 | The intended probe is 0 exactly when the section and key agree up to case. |
| ConfigStore.SortedPartitioned | src/config.c:148-156 | Entries sorted by `entry_cmp` are partitioned for every lower-case query, so the binary search is sound there. |
| ConfigStore.PrefixMatchFinding | src/config.c:566 | For sections `ui` and `uix`, the query `ui.font` matches the `uix` entry as written but not as intended. |
| ConfigStore.Search | src/config.c:563-578 | The binary search returns -1 or an index whose entry compares equal; on partitioned entries, -1 means none does. |
| ConfigStore.BoolOfDefault | src/config.c:602-612 | The default decides exactly when the lower-cased value is none of `1 y yes 0 n no`; case never matters. |
| ConfigStore.BoolOfExamples | src/config.c:602-612 | `YES` is true, `No` is false, `on` gives the default. |
| ConfigStore.ConversionError | src/config.c:625-634 | A conversion fails with strtol's errno, then EINVAL for trailing characters, then ERANGE out of range; it succeeds exactly when none applies. |
| ConfigStore.ToU32 | src/config.c:670 | The conversion to `uint32_t` keeps values in range. |
| ConfigStore.ToInt | src/config.c:641 | Reading a `uint32_t` back as `int` stays in the int range, modulo 2^32. |
| ConfigStore.IntRoundTrip | src/config.c:631-641 | An int that passes the range check is returned unchanged. |
| ConfigStore.Config.constructor | src/config.c:497-500 | `config_init` zeroes the store: no entries, no capacity. |
| ConfigStore.Config.AddEntry | src/config.c:158-173 | The entry goes to index `n` and `n` grows by one. A full array first grows by the corrected growth (`ConfigStore.Grow`, 0 becomes 1), keeping the entries before it unchanged. |
| ConfigStore.Config.SortEntries | src/config.c:148-156 | The entries end sorted by `(section, key)` as a permutation of the old ones. The array is enlarged to 2n when smaller, and its upper half is the scratch buffer. |
| ConfigStore.Config.GetIndex | src/config.c:551-579 | A query without '.' gives -1. A result index names an entry with the query's section and key up to case. On partitioned entries -1 means no entry matches. |
| ConfigStore.Config.GetIndexAsWritten | src/config.c:551-579 | As written, a found index only agrees with the query on the first `len` section characters. |
| ConfigStore.Config.GetStr | src/config.c:581-591 | Built on the corrected lookup `ConfigStore.Config.GetIndex`, which compares the whole section. The value of a matching entry, or the default when none is found. |
| ConfigStore.Config.GetBool | src/config.c:593-613 | Built on the corrected lookup `ConfigStore.Config.GetIndex`, which compares the whole section. The matching value read as a yes/no word, or the default. |
| ConfigStore.Config.GetInt | src/config.c:615-642 | Built on the corrected lookup `ConfigStore.Config.GetIndex`, which compares the whole section. The default when absent; otherwise death on an error or a value outside `[INT_MIN, INT_MAX]`, else the value. |
| ConfigStore.Config.GetU32 | src/config.c:644-671 | Built on the corrected lookup `ConfigStore.Config.GetIndex`, which compares the whole section. The default when absent; otherwise death on an error or a value outside `[0, UINT32_MAX]`, else the value, in range. |
| ConfigParser.Parser.constructor | src/config.c:464-469 | The parser starts at the first byte of the buffer on line 1. |
| ConfigParser.Parser.SkipComment | src/config.c:175-191 | The cursor loop ends where the comment grammar says, with the lines counted. |
| ConfigParser.Parser.EndLine | src/config.c:193-221 | The cursor loop agrees with the end-of-line grammar, errors included. |
| ConfigParser.Parser.Terminate | src/config.c:275 | Writing the NUL cuts exactly the string read so far and changes only that byte. |
| ConfigParser.Parser.ReadSectionName | src/config.c:223-302 | The cursor loop agrees with the section-name grammar and leaves the name as a NUL-terminated string in the buffer, with the corrected bracket report. |
| ConfigParser.Parser.ReadSectionNameFrom | src/config.c:256-302 | The same from the name's first letter, with the corrected bracket report. |
| ConfigParser.Parser.CloseSectionName | src/config.c:260-301 | The end-of-name loop agrees with the grammar, errors included, with the corrected bracket report. |
| ConfigParser.Parser.BracketAfterName | src/config.c:285-297 | Skipping blanks then testing for ']' agrees with the grammar. The error it reports names the character tested, as corrected. |
| ConfigParser.Parser.ReadKey | src/config.c:304-348 | The key loop agrees with the key grammar and leaves the key terminated in the buffer. |
| ConfigParser.Parser.KeyTail | src/config.c:317-331 | The end-of-key cases agree with the grammar. |
| ConfigParser.Parser.ReadValue | src/config.c:350-417 | The value loops agree with the value grammar and leave the value terminated in the buffer. |
| ConfigParser.Parser.ReadValueFrom | src/config.c:385-417 | The same from the value's first character. |
| ConfigParser.Parser.ValueTail | src/config.c:386-413 | The end-of-value cases agree with the grammar. |
| ConfigParser.Parser.SkipToKey | src/config.c:427-454 | Skipping blanks, newlines and comments inside a section does not change what the rest of the section parses to. |
| ConfigParser.Parser.SkipGap | src/config.c:471-482 | Skipping blanks, newlines and comments between sections does not change what the rest of the document parses to. |
| ConfigParser.Parser.ReadPair | src/config.c:449-458 | A key and its value are read and appended to the store under the current section, through the corrected growth. |
| ConfigParser.Parser.ReadSection | src/config.c:419-460 | The section loop agrees with the section grammar and appends exactly its entries, in order, with the corrected bracket report and growth. |
| ConfigParser.Parser.Run | src/config.c:471-494 | The main loop agrees with the document grammar and appends exactly the parsed entries, with the corrected bracket report and growth. |
| ConfigParser.DocumentSection | src/config.c:483-485 | A '[' outside a section starts a section, then the document continues after it. |
| ConfigParser.DoLoad | src/config.c:462-495 | `config_do_load` returns the parse of the buffer, errors with their line, and appends the parsed entries to the store, with the corrected bracket report and growth. |
| ConfigParser.Load | src/config.c:511-549 | Without a path, or when the file does not exist, nothing changes. Other I/O errors die with their errno and message, and a syntax error dies with its line. Otherwise the store holds the parsed entries, sorted, as a permutation. This uses the corrected bracket report and growth, so it also holds for a file under 80 bytes, where the source writes into an empty allocation. |
| StringUtil.JoinedNulFree | src/util/string-util.c:43-48 | Concatenating C strings gives a NUL-free string. |
| StringUtil.CopyInto | src/util/string-util.c:46 | `memcpy` places the piece at the offset and leaves the rest of the buffer alone. |
| StringUtil.StrConcat | src/util/string-util.c:29-53 | `strconcat` returns NULL exactly when the allocation fails, and otherwise a fresh buffer holding the pieces in order plus a NUL. |
| StringUtil.StrConcatReads | src/util/string-util.c:32-50 | That buffer reads back as the concatenation, and its size is the total length plus one. |
| StringUtil.StrConcat2 | src/util/string-util.c:55-60 | `strconcat2` is `strconcat` over the two strings. |
| StringUtil.StrConcat2a | src/util/string-util.h:32-44 | The macro's buffer is `s1` then `s2` then a NUL, of length `len1 + len2 + 1`. |
| StringUtil.StrConcat2aAgrees | src/util/string-util.h:32-44 | The macro builds the same buffer as `strconcat` over the two strings. |
| StringUtil.StrNConcat | src/util/string-util.c:62-82 | `strnconcat` returns `buf`, never NULL. It writes as much of the concatenation as fits before a NUL and nothing at or beyond `buf_size`. |
| StringUtil.ConcatPiece | src/util/string-util.c:66-74 | One iteration copies a piece, cut where it reaches `buf_size`. |
| StringUtil.ConcatDone | src/util/string-util.c:76-79 | The final NUL goes to `min(n, buf_size - 1)`. |
| StringUtil.StrNConcat2 | src/util/string-util.c:84-89 | `strnconcat2` is `strnconcat` over the two strings. |
| StringUtil.BoundedReads | src/util/string-util.c:62-82 | The bounded buffer reads as the first `min(total, buf_size - 1)` characters of the concatenation, and the slots from `buf_size` on are kept. |
| StringUtil.BoundedFits | src/util/string-util.c:66-74 | When the total is below `buf_size`, the whole concatenation reads back unchanged. |
| StringUtil.StrEq | src/util/string-util.h:46-49 | `streq` is true exactly when the C strings are equal. |
| StringUtil.StrEqIsEquality | src/util/string-util.h:46-49 | On NUL-free strings `streq` is string equality. |
| StringUtil.StrNEq | src/util/string-util.h:51-54 | `strneq` is true exactly when the first n characters agree. |
| StringUtil.StrLower | src/util/string-util.h:56-62 | `strlower` maps each character before the NUL through `tolower` in place and returns `s`. |
| StringUtil.StrUpper | src/util/string-util.h:64-70 | `strupper` does the same with `toupper`. |
| StringUtil.LowerBufferIdempotent | src/util/string-util.h:56-62 | Lower-casing keeps the length, reads as the lower-cased string, and lower-casing twice equals once. |
| StringUtil.UpperBufferIdempotent | src/util/string-util.h:64-70 | The same for upper-casing. |
| TextInput.Insert | src/widget.c:357-361 | An accepted character is appended to the typed text; otherwise nothing changes. |
| TextInput.Remove | src/widget.c:363-367 | Removing drops the last typed character and NULs its slot; with nothing typed it changes nothing. |
| TextInput.Clear | src/widget.c:341-345 | Clearing NULs every used slot and leaves the count at 0. |
| TextInput.ClearAsWritten | src/textbox.c:43-47 | The as-written `textbox_clear` NULs the same slots but leaves the count one below zero. |
| TextInput.InsertRemoveClearWf | src/widget.c:341-367 | Insert, remove and clear keep the count inside the buffer and the slots after it NUL. |
| TextInput.RemoveUndoesInsert | src/widget.c:357-367 | Removing right after an accepted insert restores the previous state. |
| TextInput.ClearEmpties | src/widget.c:341-345 | Clearing a valid line leaves an all-NUL buffer and an empty string. |
| TextInput.TextIsTyped | src/widget.c:347-350 | The C string the buffer holds is the typed text, cut at any NUL typed into it. |
| TextInput.CursorRestored | src/widget.c:214-219 | Appending the '_' cursor and taking it out again restores the line. |
| TextInput.ClearAsWrittenFinding | src/textbox.c:45-46 | After the as-written clear the state is no longer valid and no character is accepted any more. |
| Textbox.Textbox.constructor | src/textbox.c:32-36 | `textbox_init` zeroes the whole buffer and sets size 0. |
| Textbox.Textbox.Insert | src/textbox.c:49-53 | Appends an ASCII character while `size < capacity - 1`; otherwise nothing changes. |
| Textbox.Textbox.Remove | src/textbox.c:55-59 | Takes back the last character and NULs its slot; a no-op at 0. |
| Textbox.Textbox.Clear | src/textbox.c:43-47 | The corrected clear NULs the used slots and leaves size 0. |
| Textbox.Textbox.ClearAsWritten | src/textbox.c:43-47 | The as-written loop NULs the used slots and leaves size one below zero. |
| Textbox.Textbox.Str | src/textbox.c:61-64 | `textbox_str` is the terminated typed text: the first `size` characters, or fewer if a NUL was typed. |
| Widget.Widget.constructor | src/widget.c:222-237 | `widget_init` leaves an empty input, no rows, room for ten rows and highlight 0. |
| Widget.Widget.SetMaxRows | src/widget.c:270-274 | The row array is reallocated to the new capacity, keeping the rows that fit. `n_rows` and the highlight are not adjusted. |
| Widget.Widget.ClearInputStr | src/widget.c:341-345 | The input is cleared and the rows and highlight are unchanged. |
| Widget.Widget.InputStr | src/widget.c:347-350 | The input string is the typed text. |
| Widget.Widget.InputStrlen | src/widget.c:352-355 | The length is the number of characters typed. |
| Widget.Widget.InsertChar | src/widget.c:357-361 | An ASCII character is appended while `len < 31`; otherwise nothing changes. |
| Widget.Widget.RemoveChar | src/widget.c:363-367 | Takes back the last character; a no-op when empty. |
| Widget.Widget.DrawInput | src/widget.c:201-220 | Drawing shows the typed text plus '_' and leaves `str` and `len` as they were. |
| Widget.Widget.HasEmptyRow | src/widget.c:395-398 | True exactly when there is room for another row. |
| Widget.Widget.RowCount | src/widget.c:400-403 | The number of rows inserted since the last clear. |
| Widget.Widget.InsertRow | src/widget.c:389-393 | A row is appended while there is room and dropped otherwise; nothing else changes. |
| Widget.Widget.ClearRows | src/widget.c:405-408 | No rows afterwards; the highlight is kept. |
| Widget.Widget.Highlighted | src/widget.c:369-375 | NULL exactly when there are no rows. Otherwise it returns the slot `rows[highlight]`: the highlighted row when the highlight is below `n_rows`, and a stale slot at or past `n_rows`. |
| Widget.Widget.HighlightUp | src/widget.c:377-381 | One row up, never below 0; a highlight on a row stays on a row. |
| Widget.Widget.HighlightDown | src/widget.c:383-387 | The corrected step moves down only while a row follows, so the highlight never leaves the rows. |
| Widget.Widget.DrawOutput | src/widget.c:151-198 | Drawing first clamps the highlight to the last row; with no rows `n_rows - 1` wraps to SIZE_MAX. It paints each row once, only the highlighted one highlighted, then one blank per unused slot. |
| Widget.HighlightDownAsWritten | src/widget.c:383-387 | As written, the step moves down while the highlight is below `n_rows`. |
| Widget.HighlightDownFinding | src/widget.c:385-386 | From the last row the as-written step reaches `n_rows`, past the rows, and past the array when it is full. |
| Widget.Area | src/widget.c:435-448 | The area covers both rectangles, and each edge is an edge of one of them. |
| Widget.AreaSmallest | src/widget.c:435-448 | Every rectangle covering both also covers the area, so it is the smallest. |
| Args.GetConfigPath | src/main.c:87-99 | Without HOME the result is -ENOENT and the buffer is untouched. Otherwise HOME + `/.config/wlmenu/config` is written, bounded, and the result is 0; -ENOMEM is never returned. |
| Args.ConfigPathReads | src/main.c:105-110 | The default path reads as HOME + suffix cut to 255 characters, and whole when it fits. |
| Args.StrNCopy | src/main.c:126 | The copy loop leaves the first n slots equal to `strncpy`'s result and the rest alone. |
| Args.StrncpyTerminates | src/main.c:126 | An argument of 256 characters or more leaves the path unterminated; a shorter one reads back whole. |
| Args.Options | src/main.c:114-129 | The loop's result is the argument scan from index 1, and on a normal start the path buffer holds the path chosen. |
| Args.ExecSticky | src/main.c:117-118 | Once `exec` is set it is never cleared. |
| Args.ShortHelpIsUnknown | src/main.c:119-128 | `-h` is treated as an unknown option, although the usage text at `src/main.c:65` lists it. |
| Args.LastArgumentNeedsValue | src/main.c:123-124 | Any argument in last position other than the exec, help and version options ends with "missing argument", unknown ones too. |
| Args.ConfigOverrides | src/main.c:125-126 | A later `-c` overrides an earlier path. |
| Args.PathKept | src/main.c:114-129 | Without a `-c` the default path is kept. |
| Args.UnknownSkipsOne | src/main.c:127-128 | An unknown option is ignored, and the next argument is examined as an option. |
| Args.ConfigThenExec | src/main.c:114-129 | `wlmenu -c my.conf -e` starts with exec set and `my.conf` as the path. |

## Left out

- I/O is data, not calls. This covers `open`, `fstat`, the `read` loop with its EINTR retry, `opendir`, `readdir`, `fstatat`, `fopen` and `fprintf` in `src/load.c` and `src/config.c`. `getenv` is a map or an `Option`, and stat results are a map of times.
- `strverscmp` is a comparator parameter, required to be a total preorder (and antisymmetric where distinctness is claimed).
- `strtol` is a function parameter returning the value, errno and rest. Only the checks on its result are modelled.
- Allocation failure of `malloc`, `realloc` and `strdup` is not modelled. The exception is `strconcat`, whose NULL result is a parameter. The wrong-pointer test `if (!list)` at `src/load.c:276` is not modelled for the same reason.
- `config_get_double` (`src/config.c:673-699`) is left out because it uses floating point.
- `config_destroy`, `widget_destroy` and `textbox_destroy` are left out: they only release memory.
- `help()`, `version()`, the thread, the clock and the timing printout in `main` are left out. The loop's result records help, version, a missing argument, or a start with the flag, the path and the ignored options.
- Drawing is left out: cairo, FreeType, fonts, colours, `widget_configure`, `widget_set_font`, `widget_set_font_size` and the colour setters in `src/widget.c`. The drawing methods keep only their effect on the state and which rows they paint.
- The parser's `path` field and the text of its `die` messages are left out. Each `die` is a `Reason` constructor with the characters it prints, except `MissingBracket`, which carries the tested character (see Findings).
- `src/textbox.h` is not part of this model. The text box's capacity is a constructor parameter, and the type of `size` is unknown. The as-written clear shows the count going below zero as -1; for an unsigned type it would wrap to the maximum, and no insert is accepted either way.
- `cache_read` hands `strsep` a buffer without a terminating NUL. The model reads the file contents as a string.
- Integer widths: the `int` counters of `src/config.c` and the `int32_t` sums of `widget_area` are unbounded here, so their overflow is not modelled. The highlight's wrap at `n_rows - 1` with no rows is modelled, with a 64-bit `size_t`.
- `src/main.c:82` calls `load` with two arguments, but `src/load.c:330` takes one. `load` is modelled as `src/load.c` defines it.
- ConfigStore.Config.GetIndex: "no entry matches" is proved only for entries that are partitioned for the query. `ConfigStore.SortedPartitioned` shows this holds for sorted entries without upper-case letters. With upper-case letters, `strcasecmp` can disagree with the `strcmp` sort order and the search can miss.
- ConfigStore.Config.GetIndexAsWritten: it states only what a found index satisfies, not that a miss means absence.
- Widget.Widget.Highlighted: it requires the highlight to lie inside the row array, because the source indexes `rows` without a check.
- ConfigStore.Config.GetStr: it is built on the corrected lookup `ConfigStore.Config.GetIndex`. The prefix match that `config_get_str` inherits from `src/config.c:566` is not reproduced, so with sections `ui` and `uix` the query `ui.font` cannot return the `uix` value. The as-written lookup is `ConfigStore.Config.GetIndexAsWritten`.
- ConfigStore.Config.GetBool: it is built on the corrected lookup, so the prefix match of `src/config.c:566` is not reproduced (as for GetStr).
- ConfigStore.Config.GetInt: it is built on the corrected lookup, so the prefix match of `src/config.c:566` is not reproduced (as for GetStr). Its death carries the message but not the errno that `die_error` reports; `ConfigStore.ConversionError` states that errno.
- ConfigStore.Config.GetU32: it is built on the corrected lookup, so the prefix match of `src/config.c:566` is not reproduced (as for GetStr). Its death carries no errno, as for GetInt.
- Load.CacheRead: a line's length is its number of characters. `cache_read` takes `strlen`, so a NUL byte inside the cache file would end a name early. That case is not modelled; `cache_write` writes no NUL when the scanned names hold none.
- StringUtil.StrNConcat: it requires `buf_size >= 1`. With 0 the source writes `buf[-1]`.

## Findings

| source | as written | input that shows it | evidently intended | confidence | as-written member | corrected member |
|---|---|---|---|---|---|---|
| src/load.c:144, src/load.c:323 | `dedup` returns the index of the last kept name, and `do_load` uses it as the count | a scan finding only `ls`: `dedup` returns 0, so the list is empty and the cache gets no names | return `i + 1` for non-empty input, the number of kept names | high (not executed) | Load.Dedup, Load.MissNamesAsWritten, Load.LoadSpec, Load.DoLoad, Load.Load, Load.LoadMissDropsLast, Load.DedupIndexDropsLast | Load.DedupCount, Load.DoLoadFixed, Load.LoadSpecFixed, Load.LoadMissKeepsAll |
| src/load.c:165-166, src/load.c:279-280 | `load` gives `cache_ok` and `do_load` the same copy of PATH. `strsep` in `cache_ok` writes NULs over the ':' it passes, so after a stale cache the rescan sees only the first component | PATH `/a:/b`, cache older than `/a`, one executable in each directory: the one in `/b` is lost | rescan every component, for example from a second copy of PATH | high (not executed) | Load.PathLeft, Load.RescanFirstOnly, Load.LoadSpec, Load.DoLoad | Load.LoadSpecFixed, Load.DoLoadFixed, Load.LoadMissKeepsAll |
| src/config.c:164, src/config.c:541 | a file under 80 bytes starts at capacity 0, and `size * 2 - size / 2` keeps 0 at 0 | `[ui]\nfont=mono\n` (15 bytes): the first entry is written at index 0 of an empty allocation | grow to at least one slot | high (not executed) | ConfigStore.GrowAsWritten, ConfigStore.GrowFromEmptyFile | ConfigStore.Grow, ConfigStore.Config.AddEntry, ConfigParser.Parser.ReadPair, ConfigParser.Parser.ReadSection, ConfigParser.Parser.Run, ConfigParser.DoLoad, ConfigParser.Load |
| src/config.c:290-293 | after `*parser->cur++ != ']'` the message prints `*parser->cur`, the character after the offending one | `[ab x]` reports `]` instead of `x`; `[ab ` at end of file reads past the NUL | print the character that was tested | high (not executed) | ConfigSyntax.BracketReportAsWritten, ConfigSyntax.BracketReportFinding | ConfigSyntax.BracketAfterBlanks, ConfigParser.Parser.BracketAfterName, ConfigSyntax.SectionClose, ConfigParser.Parser.CloseSectionName, ConfigParser.Parser.ReadSectionNameFrom, ConfigParser.Parser.ReadSectionName, ConfigParser.Parser.ReadSection, ConfigParser.Parser.Run, ConfigParser.DoLoad, ConfigParser.Load, ConfigSyntax.SectionNameFrom, ConfigSyntax.SectionName, ConfigSyntax.Section, ConfigSyntax.Document, ConfigSyntax.Parse |
| src/config.c:566 | the section is compared with `strncasecmp` over the query's `len` characters, so a stored section that merely starts with it matches | sections `ui` and `uix`, query `ui.font`: the `uix` entry compares equal | compare the whole section | high (not executed) | ConfigStore.ProbeAsWritten, ConfigStore.Config.GetIndexAsWritten, ConfigStore.PrefixMatchFinding | ConfigStore.ProbeZeroIff, ConfigStore.Config.GetIndex, ConfigStore.Config.GetStr, ConfigStore.Config.GetBool, ConfigStore.Config.GetInt, ConfigStore.Config.GetU32 |
| src/textbox.c:45-46 | `while (tb->size--)` decrements once more when the test fails | any clear: size ends one below zero (wraps if unsigned) | size 0 after clearing | high (not executed) | TextInput.ClearAsWritten, Textbox.Textbox.ClearAsWritten, TextInput.ClearAsWrittenFinding | TextInput.Clear, Textbox.Textbox.Clear |
| src/widget.c:385-386 | `highlight_down` moves while `highlight < n_rows`, so from the last row it reaches `n_rows` | one row, highlight 0: highlight becomes 1 and `widget_highlight` reads `rows[1]` | move only while `highlight + 1 < n_rows` | medium (not executed) | Widget.HighlightDownAsWritten, Widget.HighlightDownFinding | Widget.Widget.HighlightDown |
