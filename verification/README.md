# Contao core logic in Dafny

A functional model of four pieces of pure decision logic in the Contao core
bundle, with proofs of what they promise:

- the **broken-link checker** subscriber of the search crawler: two counters
  (`ok`, `error`) and a log trace, threaded as a record through the crawl
  engine's callbacks (`broken_link_checker.dfy`);
- the **crawler factory**: the subscriber registry, selection of subscribers
  by name, validation of the selection and the order of subscribers on a new
  crawl engine (`factory.dfy`);
- the **configuration validators**: the path canonicaliser behind
  `web_dir`, `preview_script` and `image.target_dir` (`paths.dfy`), the
  `upload_path` reserved-directory rule, the image size name rules, the
  integer bounds and the default `locales` list (`configuration.dfy`);
- the **table picker provider**: the `dc.` context, `isCurrent`, which back
  end modules manage a table, which module and URL parameters the picker
  opens, the data container attributes and the parent table / parent id
  lookup (`table_picker.dfy`).

`php.dfy` models the PHP built-ins these rely on (truthiness, `strpos`,
`substr`, `explode`/`implode`, the `(int)` string cast with 64-bit
saturation); `wrappers.dfy` holds `Option` and `Result`.

Collaborators become inputs: the crawl engine is its set of base hosts plus
the registry of discovered URIs, as they stand at each `shouldRequest` call; `$GLOBALS['BE_MOD']` is a list of groups of
named modules; the loaded data container arrays are a map from table to its
`config`; the database lookup is a map from (table, id) to the record's
`pid`/`ptable`; the router returns the parameter map it was given; the
language directory scan is the list of directory names it found; a resumed
crawl job is a set of known job ids. Exceptions become `Err` values.

## Model

| member | source | states |
|---|---|---|
| BrokenLinkChecker.Fresh | core-bundle/src/Search/Escargot/Subscriber/BrokenLinkCheckerSubscriber.php:34 | a new subscriber has both counters at zero and has logged nothing |
| BrokenLinkChecker.LogError | core-bundle/src/Search/Escargot/Subscriber/BrokenLinkCheckerSubscriber.php:126-138 | one more broken link, `ok` untouched, exactly one error line appended for the URI |
| BrokenLinkChecker.ShouldRequest | core-bundle/src/Search/Escargot/Subscriber/BrokenLinkCheckerSubscriber.php:44-64 | positive iff the host is a base host or the found-on URI is registered and on a base host; otherwise negative with one debug line; never abstains; counters unchanged |
| BrokenLinkChecker.NeedsContent | core-bundle/src/Search/Escargot/Subscriber/BrokenLinkCheckerSubscriber.php:66-75 | always negative; status 200..399 adds exactly one to `ok`, any other status exactly one to `error` with an error line |
| BrokenLinkChecker.OnLastChunk | core-bundle/src/Search/Escargot/Subscriber/BrokenLinkCheckerSubscriber.php:77-80 | counters and log unchanged |
| BrokenLinkChecker.OnException | core-bundle/src/Search/Escargot/Subscriber/BrokenLinkCheckerSubscriber.php:101-124 | `ok` never changes; `error` grows by at most one, and stays put exactly for an HTTP exception on a non-last chunk whose status could be read; a transport exception logs its message |
| BrokenLinkChecker.GetResult | core-bundle/src/Search/Escargot/Subscriber/BrokenLinkCheckerSubscriber.php:82-99 | the reported stats are the counters, plus the previous result's component-wise when given; the result is ok iff the reported error count is zero |
| BrokenLinkChecker.ApplyMonotone | core-bundle/src/Search/Escargot/Subscriber/BrokenLinkCheckerSubscriber.php:66-124 | no callback lowers a counter or removes a log line |
| BrokenLinkChecker.RunMonotone | core-bundle/src/Search/Escargot/Subscriber/BrokenLinkCheckerSubscriber.php:66-124 | over any sequence of callbacks both counters are non-decreasing and the log only grows |
| BrokenLinkChecker.RunKeepsErrorsLogged | core-bundle/src/Search/Escargot/Subscriber/BrokenLinkCheckerSubscriber.php:126-138 | the error counter always equals the number of error lines logged |
| BrokenLinkChecker.NonLastChunksIgnored | core-bundle/src/Search/Escargot/Subscriber/BrokenLinkCheckerSubscriber.php:118-121 | any number of HTTP exceptions on non-last chunks leave the state unchanged |
| BrokenLinkChecker.RunAppend | core-bundle/src/Search/Escargot/Subscriber/BrokenLinkCheckerSubscriber.php:44-124 | running two callback sequences one after the other is running their concatenation |
| BrokenLinkChecker.HttpFailureCountedOnce | core-bundle/src/Search/Escargot/Subscriber/BrokenLinkCheckerSubscriber.php:118-123 | non-last-chunk HTTP exceptions followed by one on the last chunk count the link broken exactly once and log it once |
| BrokenLinkChecker.RunShift | core-bundle/src/Search/Escargot/Subscriber/BrokenLinkCheckerSubscriber.php:71 | what a run adds to the counters does not depend on where they started |
| BrokenLinkChecker.ResumedTotals | core-bundle/src/Search/Escargot/Subscriber/BrokenLinkCheckerSubscriber.php:84-96 | folding a first run's result into a second run's reports the totals of one uninterrupted run over both |
| BrokenLinkChecker.MergeExample | core-bundle/src/Search/Escargot/Subscriber/BrokenLinkCheckerSubscriber.php:86-92 | {ok 2, error 0} merged with a previous {ok 3, error 1} reports {ok 5, error 1}, not ok |
| Factory.AddSubscriber | core-bundle/src/Search/Escargot/Factory.php:68-73 | appends at the end and keeps every earlier entry in place |
| Factory.SubscriberNames | core-bundle/src/Search/Escargot/Factory.php:95-103 | same length as the registry, element i is subscriber i's name |
| Factory.Filter | core-bundle/src/Search/Escargot/Factory.php:84-89 | an order-preserving subsequence holding exactly the registered subscribers with a selected name, each as often as registered |
| Factory.GetSubscribers | core-bundle/src/Search/Escargot/Factory.php:78-90 | the whole registry for an empty selection, otherwise the selected subscribers in registry order |
| Factory.Intersect | core-bundle/src/Search/Escargot/Factory.php:222 | a subsequence of the names holding exactly the names also selected, each as often as it occurs among the names |
| Factory.ValidateSubscribers | core-bundle/src/Search/Escargot/Factory.php:211-229 | fails iff the selection is empty or names no registered subscriber, with an error listing every registered name; otherwise the selected registered names in registry order, unknown names dropped |
| Factory.RegisterSubscribers | core-bundle/src/Search/Escargot/Factory.php:199-206 | adds only registry subscribers whose name was validated, each registered subscriber with a validated name at least once, no more entries than the registry has |
| Factory.RegisterMatchesFilter | core-bundle/src/Search/Escargot/Factory.php:199-206 | registering against the validated names adds exactly the subscribers the selection filter returns, in registry order |
| Factory.Create | core-bundle/src/Search/Escargot/Factory.php:164-172 | fails iff validation fails; otherwise the engine's subscribers are robots, the HTML crawler, then the selected registered subscribers in registry order |
| Factory.CreateFromJobId | core-bundle/src/Search/Escargot/Factory.php:178-186 | an unknown job id fails first; otherwise as `create`, on the resumed job |
| Factory.DefaultsFirst | core-bundle/src/Search/Escargot/Factory.php:193-197 | a created engine lists robots first, the HTML crawler second, registry subscribers after |
| Paths.Chunks | core-bundle/src/DependencyInjection/Configuration.php:328 | the split yields maximal alternating runs of separators and non-separators whose concatenation is the input |
| Paths.RTrimSeps | core-bundle/src/DependencyInjection/Configuration.php:358 | a prefix of the input without a trailing separator, having removed only separators |
| Paths.Canonicalize | core-bundle/src/DependencyInjection/Configuration.php:325-359 | the result never ends in `/` or `\` and is canonical: single separators, no `.` or `..` segment; what a `.` or `..` does inside a path is stated by Paths.DotSegmentAnywhere and Paths.DotDotSegmentAnywhere for every path around it |
| Paths.CanonicalFixpoint | core-bundle/src/DependencyInjection/Configuration.php:325-359 | a path is left unchanged iff it is canonical |
| Paths.Idempotent | core-bundle/src/DependencyInjection/Configuration.php:50-55 | canonicalising twice gives the same as once |
| Paths.CollapsesSeparatorRuns | core-bundle/src/DependencyInjection/Configuration.php:336-346 | without dot segments, the result is the input with every separator run replaced by its first character, trailing separators trimmed |
| Paths.DotSegmentDropped | core-bundle/src/DependencyInjection/Configuration.php:331-334 | `a/./b` becomes `a/b` |
| Paths.DotDotSegmentRemovesParent | core-bundle/src/DependencyInjection/Configuration.php:348-353 | `a/b/../c` becomes `a/c` |
| Paths.LeadingDotDotDropsRoot | core-bundle/src/DependencyInjection/Configuration.php:348-353 | `/../c` becomes `c`: the `..` pops the root separator |
| Paths.DotSegmentAnywhere | core-bundle/src/DependencyInjection/Configuration.php:331-334 | for all paths p and q, `p/./q` canonicalises like `p/q` |
| Paths.DotDotSegmentAnywhere | core-bundle/src/DependencyInjection/Configuration.php:348-353 | for all paths p and q and every proper segment b, `p/b/../q` canonicalises like `p/q` |
| Configuration.DefaultDir | core-bundle/src/DependencyInjection/Configuration.php:50 | the default directory is canonical |
| Configuration.ValidatePath | core-bundle/src/DependencyInjection/Configuration.php:51-56 | the validated value is canonical, and a canonical value passes unchanged |
| Configuration.DefaultDirStable | core-bundle/src/DependencyInjection/Configuration.php:135-140 | a default directory passes its own validation unchanged |
| Configuration.MatchesReserved | core-bundle/src/DependencyInjection/Configuration.php:77-80 | true iff the value begins with one of the names followed by `/` or the end |
| Configuration.ValidateUploadPath | core-bundle/src/DependencyInjection/Configuration.php:70-84 | accepted, unchanged, iff not empty and not beginning with a reserved directory followed by `/` or the end; empty is reported before reserved |
| Configuration.UploadPathAccepted | core-bundle/src/DependencyInjection/Configuration.php:72-80 | `files` and `webfoo` are accepted |
| Configuration.UploadPathRefused | core-bundle/src/DependencyInjection/Configuration.php:76-83 | `web` and `web/x` are refused |
| Configuration.DigitsOnly | core-bundle/src/DependencyInjection/Configuration.php:200 | the scan agrees with the pattern `^\d+$` |
| Configuration.CheckSizeName | core-bundle/src/DependencyInjection/Configuration.php:199-227 | a name passes iff not all digits, not reserved and only `[a-z0-9_]`; all-digits is reported first, then reserved, and any other failing name as an invalid name |
| Configuration.ValidateSizeNames | core-bundle/src/DependencyInjection/Configuration.php:181-231 | succeeds, returning the sizes unchanged, iff every name passes; otherwise reports the first failing name's error |
| Configuration.SizeNameExamples | core-bundle/src/DependencyInjection/Configuration.php:199-226 | `123`, `crop` and `Big` are refused for their own reasons; `big_2x` passes |
| Configuration.CheckBounds | core-bundle/src/DependencyInjection/Configuration.php:112-113 | accepted, unchanged, iff within the given bounds; a value above the maximum is reported as too big (that message is assigned last), otherwise a value below the minimum as too small |
| Configuration.ValidateErrorLevel | core-bundle/src/DependencyInjection/Configuration.php:110-115 | accepted iff from -1 to 32767 |
| Configuration.ValidateZoom | core-bundle/src/DependencyInjection/Configuration.php:246-249 | accepted iff from 0 to 100 |
| Configuration.DefaultErrorLevelValid | core-bundle/src/DependencyInjection/Configuration.php:114 | the default error level is 8183 and within bounds |
| Configuration.CheckItems | core-bundle/src/DependencyInjection/Configuration.php:268-285 | items pass iff each has a known resize mode and a zoom within 0..100 |
| Configuration.CheckSize | core-bundle/src/DependencyInjection/Configuration.php:239-285 | a size passes iff its resize mode is known or absent, its zoom is absent or within 0..100, and so is every item's; an unknown resize mode of the size itself is the error reported |
| Configuration.FirstSizeError | core-bundle/src/DependencyInjection/Configuration.php:233-285 | none iff every size's children pass; otherwise the error of the first size whose children fail, every earlier size passing |
| Configuration.ValidateSizes | core-bundle/src/DependencyInjection/Configuration.php:178-285 | children are checked before names: a failing child of any size is the error; a result is the sizes unchanged and every name and child passed; when all children pass, the outcome is that of the name rules |
| Configuration.Unique | core-bundle/src/DependencyInjection/Configuration.php:387 | no duplicates, the same members as the input, ordered by the position of their first occurrence in the input |
| Configuration.FilterLocales | core-bundle/src/DependencyInjection/Configuration.php:381-385 | exactly the directory names matching `^[a-z]{2}(_[A-Z]{2})?$` |
| Configuration.Locales | core-bundle/src/DependencyInjection/Configuration.php:377-387 | the default locale first, no duplicates, every other entry a scanned locale-shaped directory name, and every such name present |
| Php.Strpos | core-bundle/src/Picker/AbstractTablePickerProvider.php:137 | the first position where the needle occurs, none when it does not occur |
| Php.StrposZero | core-bundle/src/Picker/AbstractTablePickerProvider.php:164 | `strpos` is 0 iff the string starts with the needle |
| Php.Substr | core-bundle/src/Picker/AbstractTablePickerProvider.php:230 | the part after the start position, empty past the end |
| Php.ExplodeImplode | core-bundle/src/Picker/AbstractTablePickerProvider.php:195 | splitting a join of separator-free parts gives the parts back |
| Php.Explode | core-bundle/src/Picker/AbstractTablePickerProvider.php:195 | at least one part, and no part contains the separator |
| Php.IntCastOfDecimal | core-bundle/src/Picker/AbstractTablePickerProvider.php:206 | the integer cast of a decimal numeral within 64 bits is its value |
| Php.IntCast | core-bundle/src/Picker/AbstractTablePickerProvider.php:206 | the result lies within 64 bits; a string without any digit casts to 0; a string whose first non-blank character is `-` casts to at most 0, any other to at least 0 |
| Php.IntCastStopsAtNonDigit | core-bundle/src/Picker/AbstractTablePickerProvider.php:255 | a numeral followed by anything not starting with a digit (such as `,` and more ids) casts to the numeral's value |
| TablePicker.TableFromContext | core-bundle/src/Picker/AbstractTablePickerProvider.php:228-231 | the context with its three-character prefix removed, empty for shorter contexts |
| TablePicker.TableOfContext | core-bundle/src/Picker/AbstractTablePickerProvider.php:25-26 | the table of `dc.` + t is t |
| TablePicker.DcaTable | core-bundle/src/Picker/AbstractTablePickerProvider.php:170-177 | no configuration gives the empty name; a `dc.` context gives the table after the prefix |
| TablePicker.IsCurrent | core-bundle/src/Picker/AbstractTablePickerProvider.php:162-165 | true iff the current entry starts with the provider name and a dot |
| TablePicker.Put | core-bundle/src/Picker/AbstractTablePickerProvider.php:220 | an existing name keeps its position and takes the new list; a new name is appended; names stay unique |
| TablePicker.Collect | core-bundle/src/Picker/AbstractTablePickerProvider.php:209-226 | names are unique and every kept list contains the table |
| TablePicker.CollectKeys | core-bundle/src/Picker/AbstractTablePickerProvider.php:213-222 | a name is kept iff some module of that name lists the table |
| TablePicker.CollectEmpty | core-bundle/src/Picker/AbstractTablePickerProvider.php:213-222 | the result is empty iff no module lists the table |
| TablePicker.CollectFirst | core-bundle/src/Picker/AbstractTablePickerProvider.php:209-226 | the first name kept is that of the first module listing the table |
| TablePicker.CollectLastWins | core-bundle/src/Picker/AbstractTablePickerProvider.php:220 | a name carries the table list of the last module of that name listing the table |
| TablePicker.ModulesForTable | core-bundle/src/Picker/AbstractTablePickerProvider.php:209-226 | names are unique, every kept list contains the table, a name is kept iff some module of that name in any group lists the table, and the result is empty iff no module does |
| TablePicker.ModulesEmpty | core-bundle/src/Picker/AbstractTablePickerProvider.php:68-70 | no modules iff no module of any group lists the table |
| TablePicker.SupportsContext | core-bundle/src/Picker/AbstractTablePickerProvider.php:135-149 | true iff the context starts with `dc.`, the table uses this data container and some module lists it |
| TablePicker.IntvalAll | core-bundle/src/Picker/AbstractTablePickerProvider.php:195 | element-wise integer cast |
| TablePicker.GetDcaAttributes | core-bundle/src/Picker/AbstractTablePickerProvider.php:182-199 | `fieldType` is the `fieldType` extra when truthy, `radio` otherwise; `preserveRecord` is the `source` extra iff it is truthy; `value` is present iff the value is truthy, and then holds the integer cast of each comma-separated part in order |
| TablePicker.AttributesReadIds | core-bundle/src/Picker/AbstractTablePickerProvider.php:194-196 | a value written as a comma-joined id list reads back as exactly those ids (except the lone id 0, whose string is falsy) |
| TablePicker.ConvertDcaValue | core-bundle/src/Picker/AbstractTablePickerProvider.php:204-207 | integers pass through; a string gets PHP's integer cast, so a decimal numeral within 64 bits becomes its value; `true`, `false` and `null` become 1, 0 and 0 |
| TablePicker.PtableAndPid | core-bundle/src/Picker/AbstractTablePickerProvider.php:252-296 | both or neither; neither exactly for a falsy value, a table without `ptable` or `dynamicPtable`, or no record for the first id; the pid is the record's cast `pid`; a dynamic parent falls back from the record to the config to `tl_article`; a returned parent is truthy |
| TablePicker.LookupUsesFirstId | core-bundle/src/Picker/AbstractTablePickerProvider.php:254-282 | for a value written as an id list, the record is looked up by the first id, and a parent id is found iff the table has a parent table configured and that record exists |
| TablePicker.UrlForValue | core-bundle/src/Picker/AbstractTablePickerProvider.php:233-250 | exactly `do`, `popup` = `1` and `picker` (the config cloned for provider.module), plus `table` when given, plus `id` when a table and a pid are given |
| TablePicker.FirstListing | core-bundle/src/Picker/AbstractTablePickerProvider.php:78-83 | the first module whose list contains the table, none when none does |
| TablePicker.ChooseModule | core-bundle/src/Picker/AbstractTablePickerProvider.php:74-84 | the first module, unless a parent table is known and listed by some module, then the first module listing it |
| TablePicker.Search | core-bundle/src/Picker/AbstractTablePickerProvider.php:87 | the first index of the table in the list, none when absent |
| TablePicker.GetUrl | core-bundle/src/Picker/AbstractTablePickerProvider.php:65-92 | fails iff no module lists the table, naming table and context; otherwise `do` names a module managing the table, `table` is the context's table and `id` is the parent id |
| TablePicker.UrlParameters | core-bundle/src/Picker/AbstractTablePickerProvider.php:86-91 | `do` is the chosen module; only `do`, `popup`, `picker` when the table heads its list; otherwise also `table`, and `id` exactly when a parent id was found |

## Left out

- The crawl engine itself, its queues (`LazyQueue`, `InMemoryQueue`, `DoctrineQueue`, UUID job ids), `BaseUriCollection`, `CrawlUri` and the robots and HTML crawler subscribers belong to an external library: only host membership, the found-on lookup and the subscriber list are modelled.
- `createLazyQueue`, `createDefaultHttpClient`, `getDefaultHttpClientOptions`, `getRootPageUriCollection`, `getAdditionalSearchUriCollection` and `getSearchUriCollection`: database, HTTP client and external collection code.
- Factory.Create: the checks `Escargot::create` itself makes on its arguments are external and not modelled; the engine is built before the subscriber selection is validated, and whatever building it does is not modelled when validation then fails.
- BrokenLinkChecker.LogError: the log message text and the `source` context are reduced to a level, the URI and a reason.
- BrokenLinkChecker.GetResult: the summary sentence is not modelled and the info map is reduced to its `stats` entry.
- BrokenLinkChecker.NeedsContent: takes the status code as read; a failure to read it propagates out of the subscriber and is not modelled.
- The Symfony tree builder and every configuration node other than the ones above (their defaults and `cannotBeEmpty` flags are not modelled except for `upload_path`).
- Configuration.ValidateSizes: only `resizeMode` and `zoom` of a size and its items are modelled; the other child nodes carry no constraint beyond their type.
- Configuration.Locales: the directory scan with the finder is an input list of directory names; its order and which directories are scanned are not modelled.
- Paths.Canonicalize: its own contract states the shape of the result; the resolution of `.` and `..` segments is stated separately by Paths.DotSegmentAnywhere and Paths.DotDotSegmentAnywhere (and, at the root, Paths.LeadingDotDotDropsRoot).
- Php.IntCast: exponent and fraction forms (`"1e3"`), and numerals too long for a double, are not modelled; digits beyond 64 bits saturate.
- TablePicker.TableFromContext: `substr` past the end is the empty string as in PHP 8; PHP 7 returns `false`, which the string return type would reject.
- TablePicker.GetDcaAttributes: extras are modelled as strings only.
- TablePicker.ConvertDcaValue: float values are not modelled (PHP truncates them toward zero and maps NaN and infinities to 0).
- PHP strings are byte strings, while the model's strings are sequences of characters: `substr`, `strpos` and the three-character `dc.` prefix count characters here, which agrees with PHP only for single-byte text.
- Factory.Filter, Factory.GetSubscribers and Factory.Intersect: `array_filter` and `array_intersect` keep the original array keys, so the PHP arrays can have gaps in their keys; the model returns the kept values, in the same order, re-indexed from zero.
- The picker menu (`addMenuItems`, `createMenuItem`), the translator, the menu factory, `DcaLoader` and framework initialisation, the SQL query builder and the URL encoding of the picker configuration.
- `supportsValue` always answers true and is not modelled.
- `installation-bundle/src/Database/Version470Update.php` is a database migration (SQL and filesystem only), `manager-bundle/src/Autoload/AutoloadPluginInterface.php` declares no behaviour, and `core-bundle/tests/DependencyInjection/Compiler/AddCronJobsPassTest.php` tests a compiler pass that is not part of this model.
