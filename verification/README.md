# hyprink core, modelled in Dafny

hyprink is a theming tool for Hyprland desktops, written in Rust. A *template* holds a manifest, a list of
render targets, extra files and an optional reload hook. Templates are kept in a binary *store*, with a
legacy copy called the *pantry* of *ingredients*. They are rendered against the colours, fonts and icon set
of the user's configuration, and the file is written, and the hook run, by an *apply* pass. Around that sit:

- a binary configuration cache, with a freshness check based on modification times;
- a small logger that renders preset lines, writes dated log files and prunes them by age and total size;
- a C interface;
- the sibling tools `corelog`, `hyprcore` and `kitchn`.

This project models the decisions in that core as pure Dafny functions over immutable data. The filesystem,
the clock, the TOML/bincode codecs, the Tera renderer and the shell become explicit inputs: oracles that
answer with a value or an error. The properties the code promises are stated as contracts and lemmas.

Modules, one per file:

- `Wrappers`, `Codec`: `Option`, `Result`, and an encode/decode pair with a soundness predicate.
- `Text`, `Decimal`, `Hex`, `Paths`, `Ordering`: ASCII string helpers and their algebra.
  - `Text` covers Rust's `str::replace`, the trims and case mapping.
  - `Decimal` covers numerals and `Hex` covers `u8::from_str_radix(_, 16)`.
  - `Paths` covers `Path::join`, `file_name` and archive names.
  - `Ordering` covers byte-wise string order and sorted key listings.
- `Catalog`: the keyed map shared by the template store and the pantry. It provides upsert, remove, a listing
  sorted by name, and the load/save rules of the database file.
- `Template`, `Store`, `Pantry`: `src/db.rs` and `crates/kitchn_lib/src/db.rs`.
- `ConfigCache`: `crates/hi_core/src/config.rs`. It covers the cache decision, the freshness check, `~`
  expansion and the retention defaults.
- `Factory`, `Processor`, `Batch`, `Commands`: `TagFactory`, `ColorResolver`, the `hex_to_rgb` filter, the
  per-template apply, the batch driver shared by both `apply.rs` copies, and the `add`/`apply` commands.
- `Retention`: `cleanup`, `stats` and `parse_size` of `crates/k-lib/src/logger.rs`.
- `Markup`: `strip_tags` and `parse_structure`.
  - `strip_tags` appears three times in the source, with identical bodies: logger.rs, hi_cli's logging.rs
    and kitchn_cli's main.rs.
- `CoreLog`: the `corelog` tool.
- `CliLogging`: the `log`/`log_msg` preset helpers.
- `Hyprcore`: the fragment sync of `hyprcore`.
- `Kitchn`: `pantry clean`, `cook` and `wrap` of `kitchn`.
- `Ffi`: the C entry points `hyprink_get_last_error`, `hyprink_store_get_last_error`, `hyprink_log_preset`,
  `hyprink_store_remove` and `hyprink_store_count`.

Where the code and its comments disagree, the model follows the code. There are three such places:

- The size pass of `cleanup` visits files newest first, although its comment says oldest first. See
  Findings.
- The `Config` struct shown in `crates/hi_core/src/config.rs` has no `presets` field, yet the CLI and the C
  interface read `config.presets`. The model's `Config` carries presets.
- `kitchn` calls a `Pantry::clean` that is not in the pantry file shown. It is modelled as emptying the map,
  which is what its use implies.

## Model

| member | source | states |
|---|---|---|
| Ordering.LeTotal | src/db.rs:89-93 | the name order used to sort listings is total, so any two names compare |
| Ordering.LeAntisymmetric | src/db.rs:89-93 | two names ordered both ways are equal, so a listing sorted by name has one place per name |
| Ordering.LeTransitive | src/db.rs:89-93 | the name order is transitive |
| Ordering.SortedKeys | src/db.rs:89-93 | the keys of a map listed strictly ascending, each key exactly once |
| Ordering.SortedUnique | src/db.rs:89-93 | two strictly sorted sequences with the same elements are equal, so the sorted listing is unique |
| Catalog.Upsert | src/db.rs:62-67 | insert under the value's name: that key maps to the new value, every other key is untouched, the size grows by one only for a new name, and key/name agreement is kept |
| Catalog.UpsertCommutes | src/db.rs:62-67 | upserts of two different names commute |
| Catalog.Remove | src/db.rs:69-72 | removing a present key returns its value and drops only that key; removing an absent key returns None and changes nothing |
| Catalog.Listing | src/db.rs:89-93 | the values in ascending name order, each stored value exactly once |
| Catalog.ListingNames | src/db.rs:89-93 | the names of a listing are strictly ascending and are exactly the stored keys |
| Catalog.ListingUnique | src/db.rs:89-93 | any sequence meeting the listing property is the listing: the order does not depend on how the map was built |
| Catalog.Load | src/db.rs:16-42 | a missing file, an empty file or unreadable metadata gives an empty map; an unopenable file and a decode failure are errors; otherwise the decoded map |
| Catalog.Save | src/db.rs:44-60 | a write error is returned; otherwise the file holds the encoded map |
| Catalog.SaveLoadRoundTrip | src/db.rs:16-60 | loading what was saved gives back the same map, for a sound codec |
| Store.Load | src/db.rs:16-42 | a missing file, an empty file or an unreadable size gives an empty store; an unopenable file is `Failed to open store database`; otherwise the decoded templates, or `Failed to decode store database`; the path is kept |
| Store.Save | src/db.rs:44-60 | save succeeds exactly when the write does and then holds the encoded templates |
| Store.SaveThenLoad | crates/hi_core/tests/db_tests.rs:23-43 | save followed by load gives back the same store |
| Store.Add | src/db.rs:62-67 | `add` replaces any template of the same name, leaves every other entry alone, grows the count only for a new name and keeps key/name agreement |
| Store.AddIdempotent | crates/hi_core/tests/db_tests.rs:64-81 | adding the same template twice is adding it once |
| Store.Remove | src/db.rs:69-72 | `remove` returns the old template and deletes exactly that key, or returns None and leaves the store unchanged |
| Store.Clear | src/db.rs:74-77 | `clear` leaves an empty store at the same path |
| Store.SetIgnored | src/db.rs:79-87 | `set_ignored` reports whether the name exists; if so only that template's `ignored` flag changes, otherwise nothing changes |
| Store.List | src/db.rs:89-93 | `list` returns every stored template once, in strictly ascending name order |
| Store.ListIgnoresInsertionOrder | src/db.rs:89-93 | the listing does not depend on the order in which two templates were added |
| Pantry.Load | crates/kitchn_lib/src/db.rs:15-38 | a missing or empty file, or an unreadable size, gives an empty pantry; an unopenable file or a decode failure is an error; otherwise the decoded ingredients |
| Pantry.Save | crates/kitchn_lib/src/db.rs:40-54 | save succeeds exactly when the write does and then holds the encoded ingredients |
| Pantry.SaveThenLoad | crates/kitchn_lib/src/db.rs:15-54 | save followed by load gives back the same pantry |
| Pantry.Store | crates/kitchn_lib/src/db.rs:56-60 | `store` upserts under `meta.name`, replacing any previous entry and keeping the others |
| Pantry.Discard | crates/kitchn_lib/src/db.rs:62-64 | `discard` returns the removed ingredient or None, leaving every other entry untouched |
| Pantry.StoreThenDiscard | crates/kitchn_lib/src/db.rs:56-64 | discarding a freshly stored new ingredient returns it and restores the pantry |
| Pantry.List | crates/kitchn_lib/src/db.rs:66-70 | `list` returns every ingredient once, strictly ascending by `meta.name` |
| ConfigCache.DefaultRetention | crates/hi_core/src/config.rs:74-90 | the default retention is 30 days, no size limit, compression after 7 days |
| ConfigCache.FragmentsNewer | crates/hi_core/src/config.rs:256-270 | some readable `hyprink.d` entry is strictly newer than the cache; unreadable entries never count |
| ConfigCache.IsCacheFresh | crates/hi_core/src/config.rs:234-273 | fresh iff the cache time is readable and nothing (executable, config file, `hyprink.d` entry) is strictly newer; a newer executable is stale; only unreadable cache or config times are errors |
| ConfigCache.EqualTimesAreFresh | crates/hi_core/src/config.rs:242-265 | the comparisons are strict, so equal times are fresh |
| ConfigCache.FreshnessMonotone | crates/hi_core/src/config.rs:234-273 | a later cache time never turns a fresh cache stale |
| ConfigCache.LoadFromSource | crates/hi_core/src/config.rs:207-217 | a missing config file is `ConfigFileNotFound(path)`, a read error is `Io`, a parse error is `Toml`, otherwise the parsed config |
| ConfigCache.LoadWithCache | crates/hi_core/src/config.rs:179-218 | unless forced, a freshness error propagates and a fresh cache that opens and decodes is returned; every other path reads the config file |
| ConfigCache.Load | crates/hi_core/src/config.rs:160-205 | a fresh cache that opens and decodes is returned whatever the config file holds; with no cache, a stale one, or a fresh one that cannot be opened or decoded, the config file is read; a freshness error is an I/O error |
| ConfigCache.LoadNoCache | crates/hi_core/src/config.rs:167-177 | `load_no_cache` and `load_from_path` never look at the cache |
| ConfigCache.ForceIgnoresCache | crates/hi_core/src/config.rs:185 | a forced load does not depend on the cache or the decoder at all |
| ConfigCache.FreshCacheWithoutConf | crates/hi_core/src/config.rs:185-198 | a fresh decodable cache is returned even when the config file no longer exists |
| ConfigCache.SaveCache | crates/hi_core/src/config.rs:220-232 | a write error is `Io`; otherwise the cache holds the encoded config, stamped now, and nothing else changes |
| ConfigCache.SaveCacheThenLoad | crates/hi_core/src/config.rs:160-232 | a cache written when nothing is newer is what the next `load` returns |
| ConfigCache.ExpandPath | crates/hi_core/src/config.rs:148-155 | `~/rest` with a known home becomes home joined with rest; every other string, bare `~` included, is unchanged |
| ConfigCache.ExpandPathRelative | crates/hi_core/src/config.rs:148-155 | for a relative rest the expansion is `home/rest` |
| Factory.Label | src/factory.rs:9-14 | the label is `labels[level]` if present, else the level itself |
| Factory.Transform | src/factory.rs:17-28 | uppercase, lowercase or capitalise the first character; any other transform leaves the label; the length never changes |
| Factory.Pad | src/factory.rs:31-45 | text at least as wide as the minimum is unchanged; shorter text is centred with the odd space on the right, to exactly the minimum width |
| Factory.CreateTag | src/factory.rs:7-52 | the tag is prefix, then the padded transformed label, then suffix, with the width that follows |
| Factory.CreateTagExact | crates/hi_core/tests/factory_tests.rs:6-10 | `debug` uppercased in a five-wide tag is `[DEBUG]` |
| Factory.CreateTagLabelled | crates/hi_core/tests/factory_tests.rs:37-41 | a label replaces the level before padding: `[ INF ]` |
| Factory.CreateTagWide | crates/hi_core/tests/factory_tests.rs:44-49 | padding to ten splits the spaces evenly |
| Factory.CreateTagBare | crates/hi_core/tests/factory_tests.rs:60-67 | with width 0 the tag is exactly prefix, label, suffix |
| Factory.CreateTagCapitalized | crates/hi_core/tests/factory_tests.rs:21-26 | `capitalize` raises only the first character |
| Factory.CreateTagLowered | crates/hi_core/tests/factory_tests.rs:13-18 | `lowercase` lowers every character |
| Factory.CreateTagUntransformed | crates/hi_core/tests/factory_tests.rs:29-34 | an unknown transform keeps the label as is |
| Factory.HexToColor | src/factory.rs:58-72 | after all leading `#` are stripped, six characters give three components, each sixteen times its first digit plus its second, the second digit alone after a `+`, and 255 when a digit is missing; any other length is white |
| Factory.HexToColorRoundTrip | src/factory.rs:58-72 | a colour written as six hex digits after any number of `#` reads back as itself |
| Factory.HexToColorUpper | crates/hi_core/tests/factory_tests.rs:70-75 | `#FF5500` is (255, 85, 0) |
| Factory.HexToColorLower | crates/hi_core/tests/factory_tests.rs:117-123 | lower-case digits without `#` parse too |
| Factory.HexToColorShort | crates/hi_core/tests/factory_tests.rs:102-115 | a three-digit colour and the empty string are white |
| Factory.HexToColorLenient | src/factory.rs:59-63 | two leading `#` are stripped, a bad pair is 255, and `+f` parses as 15 as `from_str_radix` allows |
| Hex.ParseByteAccepts | src/factory.rs:61-63 | a pair parses iff both are hex digits or it is `+` then a hex digit |
| Hex.ParseHex2 | src/factory.rs:61-63 | a byte written as two hex digits parses back to itself |
| Processor.MakeContext | crates/hi_core/src/processor.rs:21-32 | colours and fonts are passed through; the icon set is `nerdfont` iff the theme names it, else `ascii` |
| Processor.InactiveIconsIrrelevant | crates/hi_core/src/processor.rs:27-32 | the inactive icon set has no effect on the context |
| Processor.HexToRgb | crates/hi_core/src/processor.rs:45-58 | leading `#` stripped; anything but six characters is `Invalid hex color: <input>`; six characters succeed iff all three pairs parse, else `Invalid hex`; a result has three bytes |
| Processor.HexToRgbAgreesWithColor | crates/hi_core/src/processor.rs:45-58 | where the filter succeeds it agrees with `hex_to_color`; where it rejects six characters, `hex_to_color` fell back to 255 for some component |
| Processor.HexToRgbRoundTrip | crates/hi_core/src/processor.rs:45-58 | a colour written as hex converts back to its three bytes |
| Processor.ExpandTarget | crates/hi_core/src/processor.rs:164-173 | a target starting with `~` has every `~` replaced by home (an error without home); other targets are unchanged |
| Processor.ExpandTargetRemovesTilde | crates/hi_core/src/processor.rs:164-173 | after expansion with a `~`-free home no `~` is left |
| Processor.RenderAndWrite | crates/hi_core/src/processor.rs:161-188 | the target is expanded, its directory created, the content rendered and written; it succeeds iff every step does, and writes the rendered text to the expanded path |
| Processor.RenderAll | crates/hi_core/src/processor.rs:92-100 | entries are written in order; the first failure stops the loop and is the error |
| Processor.RunHook | crates/hi_core/src/processor.rs:102-158 | no hook is `Ok(true)`; a hook that runs gives its exit success, `Ok(false)` on non-zero; a spawn failure is an error |
| Processor.Apply | crates/hi_core/src/processor.rs:15-42 | all targets then all files are written in order, each as `render_and_write` gives it; a run that stops short stops at a step that failed and returns that step's error, before any hook; the result is the hook's when everything was written |
| Processor.ApplyWritesAll | crates/hi_core/src/processor.rs:15-42 | when every target and file renders and writes, all are written in order, the hook runs iff there is one, and its outcome is the result |
| Processor.ApplyIgnoresForce | crates/hi_core/src/processor.rs:15 | the force argument has no effect |
| Processor.HookOnlyTemplates | crates/hi_core/tests/processor_tests.rs:48-124 | with nothing to render, no hook is `Ok(true)`, a failing hook `Ok(false)` and a passing one `Ok(true)` |
| Batch.EligibleExactly | src/cli/commands/apply.rs:18-29 | an item is applied-eligible iff it is listed and not ignored |
| Batch.CountIgnored | src/cli/commands/apply.rs:19-28 | the skipped count plus the eligible count is the total |
| Batch.CountHookFailures | src/cli/commands/apply.rs:35-37 | hook failures never exceed the applied templates |
| Batch.Execute | src/cli/commands/apply.rs:7-58 | an empty list applies nothing; ignored items are skipped and never applied; without hard errors every eligible item is applied with applied = total − skipped and the hook failures counted, warning iff any; a hard error forces `Aborted`, and when the first hard error is at item k the batch aborts with its error having attempted exactly the eligible items up to k; hi_cli's `commands/apply.rs` is the same driver |
| Batch.HardErrorHasFirst | src/cli/commands/apply.rs:18-38 | a list with a hard error has a first one, so the abort case of `execute` is always determined |
| Batch.CountersAddUp | src/cli/commands/apply.rs:14-40 | skipped ≤ total and hook failures ≤ total − skipped |
| Batch.NothingIgnored | crates/kitchn_cli/src/main.rs:587-596 | with nothing ignored every item is eligible and none is skipped |
| Commands.PersistedForce | src/cli/commands/mod.rs:68 | an unreadable CLI config counts as force off |
| Commands.ResolveForce | src/cli/commands/mod.rs:49-70 | toggling flips the stored flag and the effective force is `force` or the new flag; without the toggle it is `force` or the stored flag; a failed save only warns |
| Commands.ToggleTwiceRestores | src/cli/commands/mod.rs:51-53 | toggling twice restores the stored flag |
| Commands.TogglePersists | src/cli/commands/mod.rs:51-70 | after a toggle, a plain run uses the new stored flag |
| Commands.FinalConfig | src/cli/commands/mod.rs:72-85 | with force, the config is reloaded from source bypassing the cache, falling back to the loaded one on error; without, the loaded one |
| Commands.ForcedConfigIgnoresCache | src/cli/commands/mod.rs:72-85 | the forced reload does not depend on the cache |
| Commands.ApplyStored | src/cli/commands/mod.rs:91 | the apply command runs the batch over the store's listing: without hard errors the eligible templates are applied and counted; a hard error aborts at the first failing template with its error |
| Commands.ApplyCommand | crates/hi_cli/src/commands/mod.rs:48-106 | the hi_cli apply branch: force resolved, configuration chosen, then the batch over the listing with that force, with skipped and hook-failure counts, aborting at the first hard error with its error |
| Commands.AddAllStores | crates/hi_cli/src/commands/add.rs:37-52 | every installed template is stored, earlier keys survive, and the last of a name wins |
| Commands.AddCommand | src/cli/commands/mod.rs:21-39 | install, then save (a failure stops before applying), then apply the new templates in order, skipping ignored ones, discarding hook results; a hard error is reported, and it is the first failing template's, after the eligible templates up to it were attempted; hi_cli's add branch follows the same rules |
| Retention.SortOldestFirst | crates/k-lib/src/logger.rs:266-267 | a permutation of the files, ordered oldest first |
| Retention.SortStable | crates/k-lib/src/logger.rs:267 | the sort is stable: files of equal age keep their order |
| Retention.Take | crates/k-lib/src/logger.rs:272-278 | a dry run lists and counts the file; a real run counts it only if its removal succeeds |
| Retention.AgePassRemoves | crates/k-lib/src/logger.rs:269-280 | a real age pass removes exactly the selected files whose removal succeeds (`delete_all` or age strictly above the maximum) and lists nothing |
| Retention.AgePassLists | crates/k-lib/src/logger.rs:269-280 | a dry age pass lists every selected file and removes nothing |
| Retention.Remaining | crates/k-lib/src/logger.rs:284-287 | the survivors are exactly the files whose path was not removed |
| Retention.TakenReachesLimit | crates/k-lib/src/logger.rs:291-303 | the prefix taken brings the total within the limit |
| Retention.SweepRemovesTaken | crates/k-lib/src/logger.rs:291-303 | a real size sweep with every removal succeeding removes exactly the prefix needed to get within the limit |
| Retention.SweepDryListsAll | crates/k-lib/src/logger.rs:291-297 | a dry size sweep as written lists every file once the total exceeds the limit, because its total never drops |
| Retention.SizePassReachesLimit | crates/k-lib/src/logger.rs:282-304 | the real size pass as written removes survivors newest first and ends within the limit when removals succeed |
| Retention.CleanupFiles | crates/k-lib/src/logger.rs:266-304 | the age pass then the size pass as written; `freed` is the size of what was removed and `would_free` of what was listed |
| Retention.DryRunAsWritten | crates/k-lib/src/logger.rs:270-304 | a dry run lists the age picks and then, when the files exceed the limit, every file again, newest first |
| Retention.CleanupSeparatesDryRun | crates/k-lib/src/logger.rs:272-301 | a dry run removes nothing; a real run lists nothing |
| Retention.ResolveBaseDir | crates/k-lib/src/logger.rs:354-363 | a base dir starting with `~` has every `~` replaced by home, an error without home; others unchanged |
| Retention.Cleanup | crates/k-lib/src/logger.rs:245-312 | base dir resolved, files collected if it exists, the two passes run, empty directories pruned only in a real run; walk and prune errors propagate, and without a home, walk or prune error the cleanup succeeds |
| Retention.LastOldest | crates/k-lib/src/logger.rs:339-341 | `max_by_key` picks the last file of greatest age |
| Retention.FirstNewest | crates/k-lib/src/logger.rs:342-344 | `min_by_key` picks the first file of least age |
| Retention.Stats | crates/k-lib/src/logger.rs:324-352 | a missing base dir gives zeros; otherwise, when the walk succeeds, `files_by_age` is the walked files in walk order, with their count and total size; the oldest is the last file of greatest age and the newest the first of least age, as `max_by_key` and `min_by_key` choose; a walk error propagates |
| Retention.StatsAgreesWithDryRun | crates/k-lib/src/logger.rs:245-352 | with no size limit, a dry run with `all` lists as many files, and frees as many bytes, as the stats report |
| Retention.DeleteAllDryRun | crates/k-lib/src/logger.rs:258-280 | a dry run with `all` lists every collected file once and deletes nothing |
| Retention.SizesPermutation | crates/k-lib/src/logger.rs:335-336 | the total size does not depend on the order of the files |
| Retention.ParseSize | crates/k-lib/src/logger.rs:415-428 | a size never exceeds the `u64` range |
| Retention.ParseSizeBytes | crates/k-lib/src/logger.rs:423-427 | a bare numeral is that many bytes |
| Retention.ParseSizeScaled | crates/k-lib/src/logger.rs:417-427 | K/KB, M/MB and G/GB, optionally after a space, multiply by 1024, 1024² and 1024³, saturating at the `u64` maximum |
| Retention.ParseSizeIgnoresCase | crates/k-lib/src/logger.rs:416 | the unit is case-insensitive |
| Retention.ParseSizeNegative | crates/k-lib/src/logger.rs:427 | a negative number saturates to 0 |
| Retention.ParseSizeRejects | crates/k-lib/src/logger.rs:415-428 | blank input and a unit with no number are None |
| Retention.ParseSizeWithoutDigits | crates/k-lib/src/logger.rs:415-428 | with numerals read as integers, text containing no decimal digit is never a size, whatever units, signs or spaces it has |
| Markup.Strip | crates/k-lib/src/logger.rs:196-215 | the reference definition of `strip_tags`, which never lengthens its input |
| Markup.StripTags | crates/k-lib/src/logger.rs:196-215 | the loop of `strip_tags` computes the reference result; the copies in hi_cli's `logging.rs` and kitchn_cli's `main.rs` are the same loop |
| Markup.StripTag | crates/hi_cli/src/logging.rs:145-149 | a `<…>` span up to the first following `>` is deleted |
| Markup.StripUntagged | crates/hi_cli/src/logging.rs:150-157 | a string without `<`, or without any `>`, is returned unchanged |
| Markup.StripKeeps | crates/kitchn_cli/src/main.rs:212-231 | stripping only deletes: every character of the output is in the input |
| Markup.StripClean | crates/k-lib/src/logger.rs:196-215 | the output contains no complete `<…>` span |
| Markup.StripFixed | crates/k-lib/src/logger.rs:196-215 | the output is unchanged iff the input has no span, so stripping twice is stripping once |
| Markup.ParseStructure | crates/k-lib/src/logger.rs:55-88 | the loop of `parse_structure`: its parts concatenate to the input, the four placeholders are standalone parts, and literal parts are non-empty and never adjacent |
| Markup.MatchAt | crates/k-lib/src/logger.rs:58-76 | the first placeholder, in list order, that the rest starts with |
| Markup.SplitJoin | crates/k-lib/src/logger.rs:55-88 | parsing the concatenation of well-formed parts gives the parts back |
| Markup.ParseExample | crates/k-lib/src/logger.rs:55-88 | `[{tag}] {msg}` splits into `[`, `{tag}`, `] `, `{msg}` |
| CoreLog.Corelog | crates/corelog/src/main.rs:18-41 | a config error, a missing preset and a preset without scope each end the run before any output; otherwise the line is printed in the level's colour and, iff `write_by_default`, `log_to_file` runs: its append is recorded on success and its error reported on failure |
| CoreLog.WritesWhenFilesystemAccepts | crates/corelog/src/main.rs:18-132 | when the directory can be created and the file appended, a `write_by_default` preset prints its line and appends the file line plus newline to base/rel-path/file name |
| CoreLog.Icon | crates/corelog/src/main.rs:44-59 | the level's icon from the active set (`nerdfont` iff named), else `?` |
| CoreLog.ColorHex | crates/corelog/src/main.rs:63-69 | `colors[level]`, else `colors["fg"]`, else `#ffffff` |
| CoreLog.ColorDefaultsToWhite | crates/corelog/src/main.rs:63-71 | with neither colour the line is white |
| CoreLog.FillAbsent | crates/corelog/src/main.rs:73-77 | a chain of replacements leaves text with none of the patterns unchanged |
| CoreLog.FillOne | crates/corelog/src/main.rs:73-77 | a structure that is exactly one placeholder becomes its value, when no earlier pattern occurs in it and no later one in the value |
| CoreLog.TerminalMessageVerbatim | crates/corelog/src/main.rs:73-77 | `{msg}` is substituted last on the terminal, so the message appears verbatim |
| CoreLog.TerminalPlain | crates/corelog/src/main.rs:73-77 | a structure without `{` prints as is |
| CoreLog.FileLineRewritesMessage | crates/corelog/src/main.rs:90-94 | on the file line `{scope}` is replaced after `{msg}`, so a message containing `{scope}` is rewritten there but not on the terminal |
| CoreLog.BaseDir | crates/corelog/src/main.rs:96-102 | a `~` base dir has every `~` replaced by home, an error without home |
| CoreLog.PathPlaceholders | crates/corelog/src/main.rs:108-117 | a path structure `{scope}` names the scope's directory, a file name `{level}` names the level |
| CoreLog.LogToFile | crates/corelog/src/main.rs:82-132 | a home error comes first; then a `create_dir_all` error is returned; then an append error; when both succeed the file line plus newline is appended to the named file in base/rel-path |
| CliLogging.Request | crates/hi_cli/src/logging.rs:17-42 | a line is logged iff the preset exists and has a scope |
| CliLogging.Log | crates/hi_cli/src/logging.rs:17-28 | `log` hands over the preset's level, scope and message, and the file switch `write_by_default` |
| CliLogging.LogMsg | crates/hi_cli/src/logging.rs:31-42 | `log_msg` gates the same way and replaces the message; kitchn_cli's `log_msg` gates and replaces the same way |
| CliLogging.LogMsgReplacesMessage | crates/kitchn_cli/src/main.rs:24-59 | the two helpers differ only in the message |
| CliLogging.FileOnlyByDefault | crates/hi_cli/src/logging.rs:24-26 | a line goes to the file exactly when `write_by_default` is set |
| CliLogging.AgreesWithCorelog | crates/hi_cli/src/logging.rs:17-28 | the helper prints exactly when the `corelog` tool does, the same line, and writes the file exactly when `corelog` attempts it |
| Hyprcore.RenderAndWrite | crates/hyprcore/src/main.rs:186-213 | `~` expanded (`Could not find home dir`), content rendered (`Failed to render template`), then written |
| Hyprcore.ProcessFragment | crates/hyprcore/src/main.rs:160-184 | a read error is returned and a parse error is `Failed to parse "<path>"`, both before anything is written; otherwise the templates then the files are written in order, each as `render_and_write` gives it, up to and including the first failure, whose error is returned; the hook starts only when all were written |
| Hyprcore.SyncEntries | crates/hyprcore/src/main.rs:148-154 | an unreadable entry stops the sync, entries whose file name lacks the `frag` extension are passed over, and with no fragment nothing happens |
| Hyprcore.SyncEntriesStops | crates/hyprcore/src/main.rs:148-154 | the sync succeeds iff every entry does; otherwise its error is that of the first entry that fails |
| Hyprcore.SyncEntriesAppend | crates/hyprcore/src/main.rs:148-184 | syncing two runs of entries is syncing the first, then, unless it failed, the second, with writes and hooks concatenated |
| Hyprcore.SyncEntriesOne | crates/hyprcore/src/main.rs:148-154 | a lone entry whose file name has the `frag` extension syncs as `process_fragment` of it, any other readable entry as nothing |
| Hyprcore.HiddenFragmentSkipped | crates/hyprcore/src/main.rs:148-154 | a hidden file named `.frag` has no extension and is passed over, while `name.frag` is processed |
| Hyprcore.SyncFragments | crates/hyprcore/src/main.rs:119-158 | a config error stops the sync; a missing fragments directory is a successful empty sync; otherwise the entries are synced with the active icon set, the `frag` test applying to each file name |
| Hyprcore.PackOutput | crates/hyprcore/src/main.rs:52-56 | the given output, else a name ending `.fpkg` |
| Hyprcore.PackOutputOfDir | crates/hyprcore/src/main.rs:53-56 | packing `dir/name` writes `name.fpkg` |
| Kitchn.PantryClean | crates/kitchn_cli/src/main.rs:481-494 | an empty pantry is reported and neither cleared nor saved; otherwise cleared, saved and the removed count reported |
| Kitchn.CleanThenLoad | crates/kitchn_cli/src/main.rs:481-494 | the saved file loads as an empty pantry, and a second clean writes nothing |
| Kitchn.CookDb | crates/kitchn_cli/src/main.rs:577-616 | every ingredient in name order is applied; an empty pantry applies nothing; hook failures are counted; a hard error aborts the run, at the first failing ingredient, with its error |
| Kitchn.WrapOutput | crates/kitchn_cli/src/main.rs:465-469 | the given output, else a name ending `.bag` |
| Kitchn.WrapOutputOfDir | crates/kitchn_cli/src/main.rs:466-469 | wrapping `dir/name` writes `name.bag` |
| Paths.DefaultArchiveName | crates/hyprcore/src/main.rs:53-56 | the input's last normal component plus the extension, or just the extension when there is none |
| Paths.DefaultArchiveNameOfParent | crates/kitchn_cli/src/main.rs:466-469 | an input ending in `..` has no file name, so the archive is named `.bag` |
| Ffi.AsCInt | crates/hi_ffi/src/lib.rs:95 | a length cast to `c_int` wraps modulo 2³² into the signed range |
| Ffi.AsCIntWraps | crates/hi_ffi/src/lib.rs:95 | a length of 2³¹ comes back negative |
| Ffi.LastError | crates/hi_ffi/src/lib.rs:72-99 | −1 for a null handle or buffer, 0 with no error, −1 when the message does not fit with its NUL; otherwise the message and NUL at the front, the length returned and the rest of the buffer unchanged; `hyprink_store_get_last_error` (lines 317-344) has the same codes and buffer behaviour |
| Ffi.LastErrorReadBack | crates/hi_ffi/src/lib.rs:90-95 | the C string read from the buffer is the message |
| Ffi.LastErrorFailsCleanly | crates/hi_ffi/src/lib.rs:77-88 | a negative return leaves the buffer as it was |
| Ffi.CStringBeforeNul | crates/hi_ffi/src/lib.rs:90-93 | the C string of a buffer is the bytes before its first NUL |
| Ffi.LogPreset | crates/hi_ffi/src/lib.rs:149-189 | null context or key is 1; an unknown key clears the old error, sets `Preset '<key>' not found` and is 1; otherwise the error is cleared, the line logged with the scope or "" and the override or the preset message, and 0 |
| Ffi.LogPresetVersusCli | crates/hi_ffi/src/lib.rs:171-188 | for a preset with a scope the same line as the CLI helper; a preset without scope, which the helper skips, is logged with an empty scope |
| Ffi.LogPresetErrorIsFresh | crates/hi_ffi/src/lib.rs:158-169 | after the lookup the kept error is exactly this call's |
| Ffi.StoreRemove | crates/hi_ffi/src/lib.rs:394-407 | null handle or name is 1; otherwise the error cleared, the name removed if present, and 0 either way |
| Ffi.StoreCount | crates/hi_ffi/src/lib.rs:411-417 | −1 for a null handle, else the number of listed templates as a `c_int` |
| Ffi.RemoveThenCount | crates/hi_ffi/src/lib.rs:394-417 | removing a stored name lowers the count by one, an absent one leaves it; the return code is 0 in both cases |
| Text.UpperLower | crates/k-lib/src/logger.rs:416 | upper-casing after lower-casing is upper-casing |
| Text.ReplaceCharIsSubst | crates/k-lib/src/logger.rs:358 | replacing a one-character pattern substitutes each occurrence |
| Text.TrimStartCharPrefix | src/factory.rs:59 | `trim_start_matches('#')` removes exactly the leading run |
| Decimal.ParseShow | crates/k-lib/src/logger.rs:427 | a numeral, signed or not, parses to its value |

## Left out

- Filesystem, clock, environment and process I/O. Directory walks, `fs::metadata`, `create_dir_all`,
  writes, removals, `current_exe`, home lookup and the XDG variables become inputs or oracles.
  `collect_log_files` and `cleanup_empty_dirs` are reduced to a record list and a prune result.
- Tracing, the debug socket watcher, terminal spawning, the `flock` lock and coloured printing. These are
  concurrency and OS plumbing; the colour is kept as a value.
- TOML parsing, bincode encoding, Tera rendering and zip packing. These are external libraries and appear as
  parse, decode, encode and render functions. The codec round trip assumes a sound codec.
- Shell hooks: only their outcome is modelled (spawn failed, exited with success or failure).
- Floating point. `parse_size` handles integer numerals with an optional sign only; `format_size` and
  `hex_to_godot_color` are not modelled.
- Retention.ParseSizeBytes: `parse_size` reads the number as an `f64`, so a numeral above 2⁵³ is rounded
  to the nearest double (`9007199254740993` reads as 9007199254740992); the model reads it exactly.
- Retention.ParseSizeScaled: the product is formed in `f64` too, so the same rounding applies above 2⁵³;
  the model multiplies exactly before saturating.
- Hyprcore.ProcessFragment: the parse error names the path as `"<path>"`; the escaping that Rust's `{:?}`
  applies to quotes, backslashes and control characters inside the path is not modelled.
- Retention.ParseSizeWithoutDigits: holds for the integer reading only. The `f64` parse also accepts
  `inf`, `infinity` and `nan` in any case and with a sign, so `parse_size("inf")` is the `u64` maximum
  and `parse_size("nan")` and `parse_size("-inf K")` are 0; the model rejects these.
- Retention.ParseSize: states only the `u64` bound; its meaning is given by the lemmas that follow it, on
  numerals, units, case, signs and rejected input.
- Unicode. Strings are ASCII, so character and byte indexing coincide:
  - `Factory.HexToColor` and `Processor.HexToRgb` require ASCII input;
  - `CoreLog.Corelog` and `CliLogging.AgreesWithCorelog` require ASCII theme colours;
  - C strings are plain byte sequences without lossy conversion.
- Factory.Transform: case mapping is ASCII only. Rust's `to_uppercase` maps `ß` to `SS`, so outside ASCII
  the length can change, which the model's "length never changes" does not cover.
- Text.UpperLower: holds for ASCII case mapping only. Outside ASCII, Rust's full case mapping
  (`ß` to `SS`, for one) is not modelled.
- Markup.ParseStructure: the source advances a byte index but reads the character with `chars().nth(i)`.
  A layout with a multi-byte character misreads or panics; the model's strings are ASCII, where the two agree.
- chrono timestamps: the date parts and the formatted timestamp are inputs.
- Store.List, Pantry.List and Kitchn.CookDb require key/name agreement. Only a database written by another program can
  break it.
- Ffi.StoreCount: the count is stated through `Store.List` only for stores with key/name agreement.
- Ffi.LastErrorFailsCleanly: assumes a message shorter than 2³¹ bytes. A longer message wraps to a negative
  return code after the buffer has been written (see `Ffi.AsCIntWraps`).
- Ffi.CopyLastError: the array version with its frame is stated with `old` and `modifies`. Its content is
  the same as `Ffi.LastError`, which carries the counted contract.
- Other C entry points: `hyprink_log`, context creation and freeing, `set_app_name`, pack, unpack,
  `apply_file`, store load/save/free and `add_toml`. These are thin wrappers around pieces modelled
  elsewhere, or around code that is not part of this model.
- `crates/corelog/src/main.rs` reads its configuration through `crates/core_lib`, which is not part of this
  model; `ConfigCache.Config` and `Factory` stand in for `HyprConfig` and the core_lib factory.
- `crates/hi_core/src/logger.rs` delegates to `hl_core`, whose code is not part of this model. The CLI and
  C logging calls are therefore modelled by the request they hand over (`CliLogging.Emit`), and the line
  rendering of `corelog` stands for it.
- `list_fragments`, `install_fragment_or_package`, `stock_pantry`, `list_pantry` and `bake_config`: listing,
  installing and printing glue around store calls.
- The clap definitions, the benches, the bindings and examples, the `k-log` commands, and the legacy
  `crates/core_lib` and `crates/hcore_lib` loaders.

## Findings

| source | as written | input that shows it | evidently intended | confidence | as-written member | corrected member |
|---|---|---|---|---|---|---|
| crates/k-lib/src/logger.rs:282-303 | the size pass walks the survivors with `.rev()` over the oldest-first list, so it deletes the newest files first | three 10-byte files within the age limit, total limit 15: the two newest are deleted | delete the oldest files first, as the comment on line 282 says | medium, not executed | Retention.SizePassOrder | Retention.SizePassOrderIntended |
| crates/k-lib/src/logger.rs:284-302 | in a dry run the size pass never lowers its total, and the survivors exclude only `deleted`, which a dry run leaves empty | a stale file and a young file whose sizes together exceed the limit: the dry run lists the stale file, the young one, and the stale one again | a dry run lists exactly what a real run with every removal succeeding would delete | medium, not executed | Retention.DryRunRelists | Retention.DryRunRelistsIntended |

Both findings are shown on concrete files and on the general case:

- `Retention.DryRunAsWritten` and `Retention.DryRunOverstates` show the as-written dry run.
- `Retention.IntendedDryRunAgrees` proves, for every input, that the corrected dry run lists exactly what
  the corrected real run removes.
- `Retention.SizePassIntendedOldestFirst` proves the corrected order.

`Retention.Cleanup` follows the code as written, because that is what the tool does. The corrected
`Retention.CleanupFilesIntended` is provided beside it.
