# A verified model of archivefs' self-contained algorithms

archivefs (EmuWiz) manages libraries of game archives. Most of its command line wraps a database,
a transaction engine and parsers; around those it has a number of algorithms that stand on their
own. This project models them in Dafny and proves what they are for.

- **Dates** (`Calendar.dfy`, `Timestamps.dfy`). The closed form that turns a day number into a
  Gregorian date, for all integers, against a calendar that counts one day, month and year at a
  time; the formatter in 64-bit machine integers; a parser that undoes it; the range in which the
  texts sort as the times do. Leap years and month lengths are those of section 5.7 and Appendix C
  of RFC 3339; sorting as text is the property of its section 5.1.
- **The argument vector** (`TokenVector.dfy`, `Extractors.dfy`). In-place removal and the two
  ways of extracting repeated `flag value` pairs, as one scan.
- **The guided cheat setup** (`SetupOptions.dfy`, `SetupLaws.dfy`, `SetupVectors.dfy`,
  `SetupSwitches.dfy`, `SetupRefusals.dfy`, `SetupPrint.dfy`, `SetupFetch.dfy`, `SetupRun.dfy`, `SetupApply.dfy`). The option
  parser, the meaning of a command line independent of its order, command lines of any shape, where a
  switch may stand, which tokens are refused as values, the round trip of the printed "apply" command, the retrieval of a catalogue with the
  cache it leaves behind, the run from retrieval and profile choice to installer over an input of typed
  lines, and when running the printed command installs what was previewed.
- **The platform audit** (`AuditModel.dfy`, `AuditTally.dfy`, `Audit.dfy`, `Histograms.dfy`). The
  explicit-stack walk with a file limit, every accumulator as a statistic of the entries met, the
  conservation laws between accumulators, samples and rankings.
- **Text forms** (`Titles.dfy`, `Paths.dfy`, `Slugs.dfy`). Title normalisation with its 8-bit
  nesting counter and the wrong-game guard; source ids derived from paths.
- **Bounded operations** (`BulkConfirmation.dfy`, `Inspector.dfy`). The typed confirmation over
  every sequence of calls; the archive listing with an entry limit.
- **Orders** (`Sorting.dfy`, `History.dfy`, `Coverage.dfy`). The stable sort, what it determines,
  the repair history, and the selection and routing of a coverage audit.

`Text.dfy`, `Bounds.dfy` and `Wrappers.dfy` hold the string, number, option and result facilities these
share.
Loops and in-place updates are methods over arrays, objects or local state, proved against
functions and predicates; laws about those are lemmas.

What the proofs found about the code:

- Every timestamp formats without overflow, but text order is time order only below second
  253402300800, where years get a fifth digit; `TextOrderBound` shows the bound is exact.
- A default cache root must exist for any setup command line to parse, even one that gives
  `--cache-root`, because the default is evaluated first (retroarch_cheat_setup.rs:292-294). The
  printed "apply" command therefore reads back in exactly those environments that have one.
- Setup's printed command leaves out `--expected-sha256`, `--force-refresh` and `--max-download-bytes`
  (retroarch_cheat_setup.rs:701-731). In the library that the preview leaves behind this never matters:
  what was retrieved is current in the cache, or downloaded again from an unchanged server, and the command installs exactly the
  previewed plan. A dropped size limit never matters at all, and offline nothing does. What remains: in a
  library as the preview found it, with the cache back in its old state, the command installs what was
  previewed if and only if the catalogue is local, or retrieved offline, or without a forced refresh and
  an expected digest. Otherwise `OtherCatalogueInstalled` gives a recent snapshot in the cache and another
  one on the server, with which it installs from a catalogue never previewed.
- Retrieving a known snapshot again does not renew it: its first manifest is kept, with its age, so a
  snapshot too old to be reused stays too old and is downloaded every time (cheat_sources.rs:1786-1801).
- `--json`, `--dry-run`, `--yes` and `--replace-different` may stand anywhere, even between a key and its
  value. `--offline` and `--force-refresh` may too, except in the place of the value of `--profile`,
  `--database`, `--config` or `--source`, which is then refused; behind `--expected-sha256`,
  `--cache-root` and `--max-download-bytes` they are accepted (retroarch_cheat_setup.rs:282-297).
- Setup's printed command reads back if and only if no printed value begins with `--` and a local
  catalogue path is not an option name.
- Repeated-flag extraction fails exactly when the run of flag tokens at the end of the vector has
  odd length.
- Title normalisation ignores bracket groups exactly up to 255 nested ones; at every greater depth
  some title is normalised wrongly.
- Normalising a title twice is normalising it once exactly for tables whose lower-cased characters fold
  to themselves; Unicode is not such a table, because of the dotted capital I.
- The inspector's documentation says an archive with an encrypted entry is refused outright
  (inspector.rs:219-222). The code stops at the limit first, so an encrypted entry beyond it goes
  unnoticed; the model follows the code.
- The repair history does not depend on the order in which the journal directory is read, duplicates
  of creation time and id included: three stable sorts in a row (journal.rs:119-129, repair.rs:383-387)
  amount to one order, newest first, then greatest id, then file name. The last sort alone would not do,
  unless no two different journals share creation time and id.

## Model

| member | source | states |
|---|---|---|
| Calendar.EraIsFloor | crates/archivefs-cli/src/main.rs:5450-5451 | the truncating era expression is floor division, negative inputs included, and leaves a day of the era |
| Calendar.YearOfEraExact | crates/archivefs-cli/src/main.rs:5452-5455 | the year of the era is exact: the remainder is a day of that year, and day 365 exists only in a leap year |
| Calendar.MonthOfYearExact | crates/archivefs-cli/src/main.rs:5456-5459 | month and day are valid and count back to the day of the year |
| Calendar.CivilStartsAtEpoch | crates/archivefs-cli/src/main.rs:5448-5461 | day 0 is 1 January 1970 |
| Calendar.CivilIsStepByStep | crates/archivefs-cli/src/main.rs:5448-5461 | for every integer day number the date is valid and the next number gives the next Gregorian day |
| Calendar.CivilIsBijection | crates/archivefs-cli/src/main.rs:5448-5461 | counting days, months and years one by one undoes the conversion on both sides |
| Calendar.CivilIsStrictlyIncreasing | crates/archivefs-cli/src/main.rs:5448-5461 | a day number is smaller exactly when its date is earlier |
| Calendar.CivilPeriod | crates/archivefs-cli/src/main.rs:5448-5461 | 146097 days later it is the same month and day, 400 years on |
| Timestamps.CivilFromDays64 | crates/archivefs-cli/src/main.rs:5448-5461 | in 64-bit integers no intermediate value overflows once the first addition fits, the 32-bit casts keep their values, and the date is that of the unbounded form |
| Timestamps.StampOf | crates/archivefs-cli/src/main.rs:5438-5445 | every unsigned 64-bit second count has well-formed fields that count back to it |
| Timestamps.FormatRoundTrip | crates/archivefs-cli/src/main.rs:5438-5446 | a parser of the printed text returns exactly the seconds printed, for every input |
| Timestamps.PrintedShape | crates/archivefs-cli/src/main.rs:5445 | every timestamp is printed as a year of four or more digits and two digits each for month, day, hour, minute and second, with hyphens, a space, colons and " UTC" where they belong |
| Timestamps.TextOrderIsTimeOrder | crates/archivefs-cli/src/main.rs:5438-5446 | below the year 10000 texts sort as the times they print |
| Timestamps.TextOrderBound | crates/archivefs-cli/src/main.rs:5438-5446 | a range from zero sorts as text if and only if it ends before second 253402300800 |
| Text.ParseUnsignedValue | crates/archivefs-gui/src/bulk_confirmation.rs:99 | checking overflow at every digit accepts exactly the digit strings, with an optional plus sign, whose value fits |
| TokenVector.Tokens.Remove | crates/archivefs-cli/src/repair.rs:1039-1040 | removing one position in place returns its token and shifts the rest forward by one |
| TokenVector.Tokens.RetainOthers | crates/archivefs-cli/src/retroarch_cheat_setup.rs:337-341 | one in-place pass leaves the tokens other than the given one, in order |
| Extractors.TakeRepeatedStringValues | crates/archivefs-cli/src/repair.rs:1028-1046 | the running-index loop is the scan: same values, same remaining vector, same failure |
| Extractors.ExtractRepeatedPathFlags | crates/archivefs-cli/src/main.rs:4419-4432 | the restart-from-the-front loop is the same scan |
| Extractors.ExtractRepeatedIdFlags | crates/archivefs-cli/src/main.rs:4398-4413 | the ids are the scan's values read as 64-bit integers, or the first value that is not one, or the dangling flag after only good ones |
| Extractors.ScanLengths | crates/archivefs-cli/src/repair.rs:1028-1046 | twice the values and the remainder make up the vector; the remainder is free of the flag exactly on success |
| Extractors.ScanCounts | crates/archivefs-cli/src/repair.rs:1028-1046 | every token occurs among values, remainder and taken flags as often as in the vector |
| Extractors.ScanKeepsOrder | crates/archivefs-cli/src/repair.rs:1024-1027 | values and remaining tokens keep the order in which they were given |
| Extractors.FailsIffOddTrailingRun | crates/archivefs-cli/src/main.rs:4419-4432 | extraction fails exactly when the vector ends in an odd run of the flag |
| Extractors.ParseI64Printed | crates/archivefs-cli/src/main.rs:4407-4409 | printed 64-bit integers, the least one included, read back as themselves |
| Extractors.ParseI64Exactly | crates/archivefs-cli/src/main.rs:4407-4409 | a text is read as a 64-bit integer exactly if it is digits behind an optional sign, within range |
| SetupOptions.ExtractOne | crates/archivefs-cli/src/retroarch_cheat_setup.rs:343-364 | extraction by positions in place is a one-pass extraction, and a refusal leaves the vector alone |
| SetupOptions.ParseOptions | crates/archivefs-cli/src/retroarch_cheat_setup.rs:277-335 | the sequence of in-place extractions computes the parser on token sequences, first error included |
| SetupLaws.ParseIsMeaning | crates/archivefs-cli/src/retroarch_cheat_setup.rs:277-335 | a well-formed command line parses to what its switches, the values of each key and its positionals mean |
| SetupLaws.OrderIndependence | crates/archivefs-cli/src/retroarch_cheat_setup.rs:277-364 | every arrangement of the same groups parses to the same result or the same error, with any number of positionals |
| SetupVectors.AcceptedRearranges | crates/archivefs-cli/src/retroarch_cheat_setup.rs:277-364 | every accepted token vector, whatever its shape, is a rearrangement of a well-formed command line that parses to the same options |
| SetupVectors.RepeatedKeyRefused | crates/archivefs-cli/src/retroarch_cheat_setup.rs:352-354 | a key that occurs twice in any token vector is refused wherever its occurrences stand |
| SetupSwitches.SwitchAnywhere | crates/archivefs-cli/src/retroarch_cheat_setup.rs:278-281 | the four switches read first may stand anywhere in any vector, between a key and its value too: moved to the front they give the same result or the same error |
| SetupSwitches.LateSwitchMoves | crates/archivefs-cli/src/retroarch_cheat_setup.rs:282-292 | on any command line `--offline` or `--force-refresh` may be moved to the front without changing result or error if and only if it does not stand, once the switches read first and the pairs extracted earlier are gone, directly behind `--profile`, `--database`, `--config` or `--source` and in front of its value; there that key is refused for want of it |
| SetupSwitches.LateSwitchInRetrievalPair | crates/archivefs-cli/src/retroarch_cheat_setup.rs:288-297 | behind `--expected-sha256`, `--cache-root` and `--max-download-bytes` both switches may always stand |
| SetupSwitches.SwitchInsidePair | crates/archivefs-cli/src/retroarch_cheat_setup.rs:277-364 | for every profile and catalogue path, a switch between `--profile` and its value is accepted although the vector is no list of well-formed groups |
| SetupLaws.ParseAcceptsExactly | crates/archivefs-cli/src/retroarch_cheat_setup.rs:281-312 | the exact condition under which a well-formed command line is accepted |
| SetupLaws.ClosingRefusals | crates/archivefs-cli/src/retroarch_cheat_setup.rs:302-312 | which of the closing errors is given: a single path beside a source is refused as an ambiguous choice, several as a combination, no or several paths without a source, and retrieval options without one |
| SetupLaws.ParsedFields | crates/archivefs-cli/src/retroarch_cheat_setup.rs:281-334 | every field of the accepted options is the switch, value or positional given for it: the database and the cache root or else their defaults, the size limit as the positive number written |
| SetupVectors.ParsedValues | crates/archivefs-cli/src/retroarch_cheat_setup.rs:343-364 | whatever the shape of an accepted vector, no value read from it begins with two hyphens, the catalogue path is never an option name, and database and cache root are the defaults where they were not written |
| SetupRefusals.UnknownOptionIsNoValue | crates/archivefs-cli/src/retroarch_cheat_setup.rs:355-360 | a vector in which a key stands in front of an unknown token that begins with two hyphens, switches between them or not, is refused |
| SetupRefusals.ValueIsRead | crates/archivefs-cli/src/retroarch_cheat_setup.rs:355-364 | a token behind `--profile` is the profile id if and only if its first two characters are not hyphens |
| SetupPrint.PreviewApplyCommand | crates/archivefs-cli/src/retroarch_cheat_setup.rs:701-731 | the printer writes the program, the command and the groups of the options and profile |
| SetupPrint.PrintedReadsBack | crates/archivefs-cli/src/retroarch_cheat_setup.rs:701-731 | a printable command reads back as the previewed options with the plan's profile and confirmation exactly where a default cache root exists |
| SetupPrint.PrintParseRoundTrip | crates/archivefs-cli/src/retroarch_cheat_setup.rs:701-731 | in any environment the printed command reads back as previewed if and only if there is a default cache root and no printed value can be taken for an option |
| SetupPrint.ParsedIsPrintable | crates/archivefs-cli/src/retroarch_cheat_setup.rs:277-364 | what is parsed from any accepted command line can be printed, and the printed command reads back, unless a default path is an option |
| SetupFetch.SizeLimitOnlyRefuses | crates/archivefs-core/src/patch_manager/cheat_sources.rs:1554-1557 | a retrieval within a size limit is the retrieval without it, in every library |
| SetupFetch.LimitLimits | crates/archivefs-core/src/patch_manager/cheat_sources.rs:1554-1565 | what is downloaded is never larger than the limit given, and a limit of zero lets nothing be downloaded |
| SetupFetch.FetchSucceedsExactly | crates/archivefs-core/src/patch_manager/cheat_sources.rs:1171-1251 | a retrieval succeeds if and only if the source is known, the expected digest is 64 hexadecimal digits, it is not both offline and forced, the cache can be locked, and the cache has a complete, matching, recent enough snapshot or the server sends a faultless, matching, publishable one within both limits |
| SetupFetch.FetchGives | crates/archivefs-core/src/patch_manager/cheat_sources.rs:1548-1840 | it gives the current snapshot and changes nothing, or the one sent, which becomes current with the manifest it had before or a new one |
| SetupFetch.SnapshotPathText | crates/archivefs-cli/src/retroarch_cheat_setup.rs:41-46 | the catalogue lies at root, source, snapshots, digest and prefix |
| SetupFetch.OfflineDigestOnlyRefuses | crates/archivefs-core/src/patch_manager/cheat_sources.rs:1197-1245 | an offline retrieval that expects a digest is the one that expects none |
| SetupFetch.ExpectedIsRetrieved | crates/archivefs-core/src/patch_manager/cheat_sources.rs:1171-1251 | whatever cache and server hold, a retrieval that expects a digest gives a snapshot of that digest |
| SetupFetch.RetrievedAgain | crates/archivefs-core/src/patch_manager/cheat_sources.rs:1171-1251 | what was retrieved with any options is retrieved by plain options from the library left behind, reused or downloaded again |
| SetupFetch.OldSnapshotStaysOld | crates/archivefs-core/src/patch_manager/cheat_sources.rs:1786-1801 | downloading a snapshot published before leaves its old manifest current, so an online retrieval downloads it again |
| SetupFetch.PlainRetrievesTheSame | crates/archivefs-core/src/patch_manager/cheat_sources.rs:1171-1251 | offline, or without a forced refresh and an expected digest, plain options retrieve the same from the same library |
| SetupFetch.PlainRetrievesOther | crates/archivefs-core/src/patch_manager/cheat_sources.rs:1171-1251 | for every other retrieval there is a library from which plain options retrieve another catalogue |
| SetupRun.SelectProfile | crates/archivefs-cli/src/retroarch_cheat_setup.rs:438-460 | the prompt loop reads up to the deciding line and returns the profile it names, a cancellation, or the read error |
| SetupRun.Confirm | crates/archivefs-cli/src/retroarch_cheat_setup.rs:462-470 | exactly one line is read, and it confirms exactly if it is "yes" trimmed and lower-cased in ASCII |
| SetupRun.Run | crates/archivefs-cli/src/retroarch_cheat_setup.rs:37-275 | the installer is entered exactly when the run is entitled to it, once, last, and after the plan it carries out; a refused retrieval, discovery, selection or plan fails with that refusal, a cancelled or preview-only run succeeds, an installation decides the exit, and the library left behind is that of the retrieval |
| SetupRun.ChosenWasNamed | crates/archivefs-cli/src/retroarch_cheat_setup.rs:438-460 | a chosen profile was named by the first decisive line, and later lines are left unread |
| SetupRun.NamedIsChosen | crates/archivefs-cli/src/retroarch_cheat_setup.rs:438-460 | a first decisive line that names a profile has it chosen |
| SetupRun.PrintedNumberPicks | crates/archivefs-cli/src/retroarch_cheat_setup.rs:421-455 | typing the number listed beside a profile picks it, and a line that picks it reads as that number |
| SetupRun.CancelExactly | crates/archivefs-cli/src/retroarch_cheat_setup.rs:443-447 | a line cancels the choice exactly if it is "q" or "cancel", trimmed and lower-cased in ASCII |
| SetupRun.EligibleConcat | crates/archivefs-cli/src/retroarch_cheat_setup.rs:83-88 | the profiles offered are the eligible ones in discovery order |
| SetupRun.NeverInstallsUnasked | crates/archivefs-cli/src/retroarch_cheat_setup.rs:78-165 | an installation has writes, is no dry run, uses an eligible discovered profile, was asked for by `--yes` or a typed "yes" outside JSON mode, and replaces files and reads the database as the options say |
| SetupRun.RetrievesAsAsked | crates/archivefs-cli/src/retroarch_cheat_setup.rs:38-48 | a run retrieves with all the options it was given, and what it downloads is within its size limit and of its expected digest |
| SetupRun.ConsentInstalls | crates/archivefs-cli/src/retroarch_cheat_setup.rs:155-165 | once there is a plan with writes and no dry run, it is installed if and only if `--yes` was given or, outside JSON mode, the next line is "yes" trimmed and lower-cased in ASCII |
| SetupRun.ChosenProfileWasNamed | crates/archivefs-cli/src/retroarch_cheat_setup.rs:83-128 | with several eligible profiles and no `--profile` the one used was named by the first decisive line, and without `--yes` the next line said "yes" |
| SetupApply.AppliedInstallsPreview | crates/archivefs-cli/src/retroarch_cheat_setup.rs:38-203 | whatever library they find, the printed options install exactly the previewed plan if and only if it has writes, its profile is the one its id finds, and retrieving with the printed options gives the previewed catalogue |
| SetupApply.AppliesAfterPreview | crates/archivefs-cli/src/retroarch_cheat_setup.rs:38-203 | in the library the preview leaves behind the printed options always install the previewed plan |
| SetupApply.AppliesAsPreviewedExactly | crates/archivefs-cli/src/retroarch_cheat_setup.rs:701-731 | over all worlds as the preview found them and all typed lines, the printed options do what was previewed if and only if the catalogue is local, or retrieved offline, or without a forced refresh and an expected digest |
| SetupApply.OtherCatalogueInstalled | crates/archivefs-cli/src/retroarch_cheat_setup.rs:704-713 | for all other options, a cache and a server with which the command installs, unasked, from a catalogue that was never previewed |
| SetupApply.PrintedCommandInstallsPreview | crates/archivefs-cli/src/retroarch_cheat_setup.rs:701-731 | preview, print, parse and run compose: a printable command parses and installs the previewed plan on the same condition, and always in the library the preview leaves behind |
| SetupApply.PrintedAppliesExactly | crates/archivefs-cli/src/retroarch_cheat_setup.rs:701-731 | over all worlds as the preview found them, the printed text applies every preview if and only if the catalogue is local, or retrieved offline, or without a forced refresh and an expected digest |
| AuditModel.WalkMeetsEligible | crates/archivefs-cli/src/main.rs:9702-9744 | the explicit stack meets every eligible file as often as a recursive walk that follows no links to directories |
| AuditModel.EligibleExactly | crates/archivefs-cli/src/main.rs:9707-9744 | the files of the recursive walk are those at the end of some path of readable directories, as files or as links to files, never behind a link to a directory |
| AuditModel.CutFiles | crates/archivefs-cli/src/main.rs:9708-9710 | a limit keeps exactly the first files of the walk |
| Audit.Walk | crates/archivefs-cli/src/main.rs:9702-9885 | the nested loops end on every tree, and the accumulators describe exactly the walk cut at the limit and are conserved |
| Audit.ReadDirectory | crates/archivefs-cli/src/main.rs:9707-9883 | the inner loop with its early break keeps the walk on course from any stack, conserved before every entry |
| Audit.FilesConsidered | crates/archivefs-cli/src/main.rs:9708-9744 | the files considered number min(limit, eligible files) and are the first of the walk |
| Audit.EveryEligibleFileOnce | crates/archivefs-cli/src/main.rs:9702-9744 | a limit that is not reached considers every eligible file, each as often as the recursive walk |
| Audit.DescribedIsConserved | crates/archivefs-cli/src/main.rs:9715-9856 | confidences add up to the files, read and refused links to the links seen, disk refusals to malformed and refused, and the bounds between them hold |
| Audit.PlatformShortfall | crates/archivefs-cli/src/main.rs:9786-9791 | platform and unresolved counts fall short of the files by exactly the files with neither |
| AuditTally.Consider | crates/archivefs-cli/src/main.rs:9714-9883 | one entry moves every accumulator to the statistic of the entries met so far |
| AuditTally.RecordChanges | crates/archivefs-cli/src/main.rs:9798-9882 | each sample is the first of its changes in visit order, up to 40, 10 and 20, and each total counts them all |
| AuditTally.ChangesAfter | crates/archivefs-cli/src/main.rs:9798-9882 | which file adds which change, with the platform before and after and the reason in its fields |
| AuditTally.CountDisk | crates/archivefs-cli/src/main.rs:9824-9856 | each disk row counts the outcomes of its own extension's files and saturates their bytes |
| AuditTally.OutcomeExactly | crates/archivefs-cli/src/main.rs:9842-9855 | an inspection is valid, malformed by one of six codes, refused by any other, or silent |
| AuditTally.DiskFilesExactly | crates/archivefs-cli/src/main.rs:9824-9826 | the disk rows are those of exactly the files with extension "st" or "stx" |
| Histograms.HistogramTotal | crates/archivefs-cli/src/main.rs:9786-9791 | the counts of a histogram add up to the keys counted |
| Histograms.Rank | crates/archivefs-cli/src/main.rs:9886-9888 | the list holds the entries of the map once each, no count before a greater one, and equal counts by name |
| Histograms.RanksUnique | crates/archivefs-cli/src/main.rs:9886-9888 | a map has only one ranking |
| Audit.AuditPlatformDetection | crates/archivefs-cli/src/main.rs:9678-9923 | the report ranks the accumulators of the cut walk and lists the requested platforms never seen, in request order and as often as requested |
| Audit.TopOutranksRest | crates/archivefs-cli/src/main.rs:9890-9893 | an unresolved extension off the list is no more frequent than one on it, and of greater name if as frequent, and the list then has 15 rows |
| Titles.NormalizeCliTitle | crates/archivefs-cli/src/bsfree.rs:845-864 | the loop with the saturating 8-bit counter computes the normal form |
| Titles.InsideIsDeep | crates/archivefs-cli/src/bsfree.rs:853-856 | a position is inside an unclosed group exactly where the nesting depth is positive, stray closers ignored |
| Titles.NormalizedIsReference | crates/archivefs-cli/src/bsfree.rs:845-864 | up to 255 nested groups the normal form folds exactly the characters outside every group |
| Titles.CounterBound | crates/archivefs-cli/src/bsfree.rs:850-854 | all titles of a nesting agree with the reference if and only if that nesting is at most 255 |
| Titles.GroupsDoNotCount | crates/archivefs-cli/src/bsfree.rs:846-848 | a bracket group put anywhere in a title, within the counter's range, leaves the normal form unchanged |
| Titles.BracketedTextDoesNotCount | crates/archivefs-cli/src/bsfree.rs:852-857 | text between `(` or `[` and the next `)` or `]` does not count, wherever fewer than 255 groups are open |
| Titles.PlainTitle | crates/archivefs-cli/src/bsfree.rs:852-857 | a title without those four characters is folded whole |
| Titles.NormalizedTwiceExactly | crates/archivefs-cli/src/bsfree.rs:845-864 | for character tables that make no brackets, every title is normalised once and for all if and only if every lower-cased character folds to itself |
| Titles.MarkIsLost | crates/archivefs-cli/src/bsfree.rs:859-863 | a character lower-cased to a letter and a non-alphanumeric mark, like the dotted capital I, keeps the mark the first time and loses it the second |
| Titles.GuardIgnoresGroups | crates/archivefs-cli/src/bsfree.rs:348-358 | a bracket group added anywhere to either title, within the counter's range, leaves the verdict unchanged |
| Titles.GuardComparesOutside | crates/archivefs-cli/src/bsfree.rs:348-358 | up to 255 nested groups a supplied title is refused exactly when what is outside its groups folds to something, and to something else than that of the game |
| Titles.AcceptedForEveryGame | crates/archivefs-cli/src/bsfree.rs:348-358 | up to 255 nested groups a title is accepted for every game exactly when no alphanumeric character stands outside its groups |
| Titles.GuardSeesNormalForms | crates/archivefs-cli/src/bsfree.rs:348-358 | a title may be replaced by its normal form on either side, for every game, exactly when that normal form is normal |
| Slugs.Slug | crates/archivefs-cli/src/repair.rs:790-809 | the look-back loop and the trimming give the words of the stem joined by single hyphens, or "dat" |
| Slugs.SlugShape | crates/archivefs-cli/src/repair.rs:790-809 | every path gives a non-empty text over a-z, 0-9 and single inner hyphens |
| Slugs.SlugLetters | crates/archivefs-cli/src/repair.rs:790-809 | without its hyphens a slug is the ASCII letters and digits of the stem, capitals lowered, none lost, or "dat" if there are none |
| Paths.NameIsSplit | crates/archivefs-cli/src/repair.rs:791-794 | in any directory a name is split at its last dot, unless that is its first character |
| Paths.NameWithoutExtension | crates/archivefs-cli/src/repair.rs:791-794 | a name without a dot, or with its only one in front, is its own stem |
| Paths.EndSkipped | crates/archivefs-cli/src/repair.rs:791-794 | separators and single dots at the end of a path are skipped |
| Paths.ParentHasNoName | crates/archivefs-cli/src/repair.rs:791-794 | a path that ends in two dots, the root and the empty path have no name |
| Slugs.FixedExactlyBySlugs | crates/archivefs-cli/src/repair.rs:790-809 | the texts left unchanged are exactly the texts of that shape |
| Slugs.SlugTwice | crates/archivefs-cli/src/repair.rs:790-809 | a slug taken as a path gives itself |
| BulkConfirmation.Confirmation.Validate | crates/archivefs-gui/src/bulk_confirmation.rs:79-108 | each verdict exactly when it is due: final states first, then no items, then no preview, then above 25 items a missing or a wrong count, and Ready otherwise |
| BulkConfirmation.Confirmation.Confirm | crates/archivefs-gui/src/bulk_confirmation.rs:110-118 | confirming succeeds exactly on a Ready verdict and otherwise returns the verdict and changes nothing |
| BulkConfirmation.ConfirmedExactly | crates/archivefs-gui/src/bulk_confirmation.rs:67-124 | a sequence of calls ends confirmed exactly when some Confirm follows a preview, precedes any Cancel, has items, and above 25 items has the count as the last typed text |
| BulkConfirmation.ConfirmedIsSafe | crates/archivefs-gui/src/bulk_confirmation.rs:67-124 | whatever the calls, a confirmed record has items, a complete preview and, above 25 items, the count typed |
| BulkConfirmation.FinalStatesAbsorb | crates/archivefs-gui/src/bulk_confirmation.rs:67-124 | after confirming or cancelling no call changes any field |
| BulkConfirmation.TypingTheCountConfirms | crates/archivefs-gui/src/bulk_confirmation.rs:94-103 | typing the printed count, with any white space around it, after the preview lets the next Confirm succeed |
| Inspector.InspectArchiveWithLimit | crates/archivefs-core/src/inspector.rs:292-354 | each way of failing to open has its own error; an open archive reports the first unreadable or encrypted entry within the limit, or exactly those entries, whether more exist, and the total |
| Inspector.ReportIsUnique | crates/archivefs-core/src/inspector.rs:310-354 | that specification determines the outcome |
| Inspector.LimitOnlyHides | crates/archivefs-core/src/inspector.rs:310-354 | raising the limit keeps every error, extends every listing and leaves the total |
| Inspector.EncryptionSeenWithinLimit | crates/archivefs-core/src/inspector.rs:313-330 | any archive with an encrypted entry is listed if and only if its first encrypted or unreadable entry lies at or beyond the limit, and otherwise refused with the error of that entry |
| Inspector.CompanionsAreDocumentation | crates/archivefs-core/src/inspector.rs:132-166 | a known disc companion is always classified as documentation |
| Inspector.ClassIgnoresCase | crates/archivefs-core/src/inspector.rs:132-156 | an entry is classified by its extension alone, whatever its case |
| Sorting.DeterminedExactly | crates/archivefs-cli/src/repair.rs:383-387 | sorting forgets the input order if and only if the order tells all different elements apart |
| Sorting.SortByLex | crates/archivefs-core/src/dat/rename_apply/journal.rs:119-129 | stably sorting by one key what is sorted by another sorts by the first and then the second |
| History.ListJournals | crates/archivefs-core/src/dat/rename_apply/journal.rs:107-130 | the JSON files are read in path order, each parsed or reported, and the journals sorted by id |
| History.ReadingOrderDoesNotMatter | crates/archivefs-core/src/dat/rename_apply/journal.rs:107-130 | however the directory is read, listing, problems and history, with and without a limit, are the same |
| History.HistoryOrder | crates/archivefs-cli/src/repair.rs:370-390 | the history is the readable journals sorted newest first, then by greatest id, then by file name, cut at the limit |
| History.FinalSortDetermined | crates/archivefs-cli/src/repair.rs:383-387 | the last sort alone forgets the order of its input if and only if no two different journals share creation time and id |
| History.LimitShowsNewest | crates/archivefs-cli/src/repair.rs:383-390 | a limit shows that many journals, newest first, and leaves out none newer than one shown |
| History.RunHistory | crates/archivefs-cli/src/repair.rs:370-390 | of the listed journals the result is newest first, of length min(limit, journals), and what some sorted permutation of them begins with, so nothing left out is newer |
| Coverage.Select | crates/archivefs-cli/src/main.rs:2052-2064 | the selection is the archives of the distinct ids in request order, or the first id that is not catalogued |
| Coverage.DistinctCount | crates/archivefs-cli/src/main.rs:2057-2063 | as many archives are selected as different ids were requested |
| Coverage.Route | crates/archivefs-cli/src/main.rs:2066-2137 | routing gives the Dolphin and RetroArch games of the selection in order, or the first archive outside the audit |
| Coverage.LanesExactly | crates/archivefs-cli/src/main.rs:2097-2118 | GameCube and Wii go to Dolphin, PlayStation 2 and Xbox 360 are outside, everything else and archives without a platform go to RetroArch |
| Coverage.GamesIdentified | crates/archivefs-cli/src/main.rs:2069-2134 | the verified identity is the Dolphin game id, or the CRC, or else the digest, or else the serial, each named for what it is |
| Coverage.ListsPartition | crates/archivefs-cli/src/main.rs:2066-2137 | the two lists interleave to the selection and their sizes add up |
| Coverage.RunCoverage | crates/archivefs-cli/src/main.rs:2039-2137 | on success the sizes add up to the number of different ids; an id is missing exactly when the error says so |

## Left out

- Everything behind the library crate that these algorithms call: database, transaction engine, DAT
  parsers, platform detection, cheat installer, archive and disk parsers. Their verdicts are fields of
  the modelled entries, worlds and archives.
- The file system, network, clock and process ids: directory contents, retrieval and typed lines are
  inputs.
- Reports, help texts, JSON output and GUI drawing.
- Path bytes that are not UTF-8: paths are strings, so the lossy display of such a path is not modelled.
- What changes between a preview and its application besides the cache: profiles, files, the server and
  the age of snapshots are the same for both. A plan is a function of profiles, catalogue, database and
  permission to replace, and holds the number of its writes.
- Cancellation, retries and progress of a retrieval, and the error it records in the cache, which changes
  no snapshot. A registry entry with a digest of its own is modelled, but `AppliesAfterPreview` assumes
  the source has none, as the one in the registry (cheat_sources.rs:98-120).
- The reconciliation of interrupted journals between listing and sorting (repair.rs:374-382): it changes
  states of entries, neither creation time nor id. Directory entries that cannot be read are not listed.
- Tables that are data: the four extension lists of the inspector and Unicode's white space are copied, and
  nothing is proved of their single entries.
- Unicode lower-casing: titles take the character tables as a parameter, extensions and platform names
  use the ASCII mapping.
- The order in which the report lists disk formats, which is that of their extensions: the model keys
  their ranked refusals by extension instead.
- The structural inspection's folder argument: it is computed from the file's own evidence, so the
  outcome is a field of the file.
- Cheap relatives of the modelled extractors (`take_flag`, `take_value`, `take_string_value`,
  `extract_named_string_flag`, `parse_cli_args`): they would only add easy members.
- `classify_transaction_kind`: two quantifiers over the entries, which a contract could only repeat.
- Region, revision, basename and the unverified copies of serial and hash of a coverage game, and the coverage report built from the two lists.
- Extractors.ExtractRepeatedIdFlags: says nothing about the vector left behind on an error, which the
  program discards.
- Insertion sort stands for the standard library's stable sort; where elements are told apart any
  sorting gives the same list.
