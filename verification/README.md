# trustdiff: a verified model

trustdiff reads a project's dependency tree and reports what changed in the signals that
made its packages trustworthy: who publishes, who maintains, what evidence a release
carries. It also reads and edits the settings package managers have against such changes.
This project models the parts of it that are hardest to get right and proves what they
promise. `dafny verify dfyconfig.toml` checks all of it.

Text is a sequence of ASCII bytes. Integers are unbounded, except where the width decides
something and is written out (version segments, `strconv.ParseInt`).

**The line editor for configuration files.** `Document` is a file as lines that are written
back byte for byte. `IniScan`, `IniPlaces`, `IniCodec` and `IniCode` are the ini scanner and
codec; `IniTold`, `IniLines`, `IniLaws`, `IniInsert`, `IniTaken`, `IniFile`, `IniKept` and
`IniSwallowed` prove set-then-get, the frame and idempotence for them, and `IniExamples`
holds the files on which a law needs its condition. `IniGrammar` says what an ini file is
apart from any scanner, and `IniStated`, `IniShown`, `IniRefused` and `IniWritten` what the
scan, Get and Set make of one: what is found, shown, refused and written, and where.
`TomlSpec` says what the toml scanner reads as functions of the text that is left, `TomlCode` is the cursor machine and its proof against them, `TomlRanges` the ranges
it records, `TomlOpen` exactly the texts it reads past the end of and `TomlPanics` three of
them, and `TomlSpell`, `TomlLocal`, `TomlMove`, `TomlReplace` and `TomlSet` what a rewritten
value does to the next scan. `TomlGrammar` says what a toml file is apart from any scanner;
`TomlReads` and `TomlStated` prove that the scan records exactly what such a file states, and
`TomlBare` that an edit leaves what stands behind a value alone.
`Jsonc` is the comment blanker, `JsoncStated` what its copy of a file is, and `Offsets` the
index from bytes to lines and columns.

**The single-flight memo.** `Memo` is the interleaved step system of callers, entries and
the map; `MemoLaws` what holds of every run; `MemoFates` what comes of every fetch;
`MemoCode` the locked sections as an object.

**The baseline record.** `Names`, `Baseline`, `BaselineFile`, `BaselineHistory`,
`BaselineForgets`, `BaselineChecks` and `BaselineVerdicts`: the sorted store, the merge of half
observations, what a history of them leaves and forgets, and what TD002 and TD003 read of it.

**Verdicts under missing data.** `TrustDowngrade` is TD004 with oracles that answer, fail
definitely or are out; `Runner` files what the checks return.

**The doctor.** `Versions` and `VersionsRead`, `Blocks` and `BlocksStated`, `Desired` and
`DesiredRead`: version comparison and rule applicability, the block-scalar loop over workflow
files, and the judging of settings.
`Codecs` says what a codec promises of a write, told apart by whether it lands, settles or
is swallowed; `Fixer` is the evaluation of a rule and `applyFixes`, `FixerSteps` what each
of the two comes to; `FixerLaws` and `FixerAgain` what a run leaves and when a second one writes; and `FixerIni` proves that the
ini codec of the first part keeps the promises.

## What was found

Where the code and what is promised of it part, the code is modelled as it is, a lemma
gives the input, and the law is stated with its exact condition.

- ini, literals: `iniSpell` writes some strings so that they read back as another kind or
  without their quotes. The condition is `ReadsBack` (`WordBecomesBool`, `QuotedLosesQuotes`).
- ini, lists: a plain line below a rewritten list keeps the last word. The condition is
  `Settles` (`PlainBelowList`).
- ini, insertion: a new line deeper than the entry above it becomes part of that entry, and
  one above an indented line or header captures it. The key is stated exactly when its line
  `Stands` and holds its value exactly when it `Takes` (`InsertHolds`, `PipStaysMissing`,
  `JoinedToEntryAbove`, `HeaderCaptured`); every line reads as it did exactly when the point
  is `Clear` (`InsertExact`).
- toml, panics: the scan runs before the decoder and reads past the end of three kinds of
  unclosed text (`BackslashAtTheEnd`, `DotAtTheEnd`, `QuoteAtTheEnd`). `PanicsExactly` says
  which texts those are, and `ClosedIsSound` that a closed text is none of them.
- toml, quotes: TOML 1.0 lets one or two quotes stand right in front of the three that close a
  multi-line string; the scanner stops at the first three, so such a string is not read to its
  end (`LongEndsExactly`), and in an array the rest of the file can be lost with it
  (`QuoteBeforeTheEnd`). `TomlGrammar` has every other string.
- toml, rewriting: `SetLaw` asks for four things a decoder asks for too: a value that is not
  empty, an "=" before it, nothing but spaces between it and its terminator, and no quoted
  key that runs over the end of a stepped-over line. It also asks that the value is no
  inline table, whose inner paths a scalar would replace.
- documents: a file of mixed line endings is not written back as it was, and exactly such a
  file is not (`RoundTrip`).
- TD004: a pass is sound except when deps.dev was asked about a predecessor, did not answer,
  and would have decided; `Unavailable` holds only what is missing about the evaluated
  release (`PassIsSound`, `PassOverLostLookup`). It also skips when only deps.dev's advisory
  findings were out (`SkipOverOtherOutage`).
- runner: `skipAll` overwrites what `runOne` noted of an unfinished check
  (`UnfinishedIsForgotten`); `MarksSurvive` says exactly when no mark is lost.
- versions: a segment of more than 63 bits wraps and can fall below an unreadable one, or
  count as equal to it (`HugeIsBelowUnreadable`). The condition is on the low 64 bits
  (`UnreadableVersion`). A rule with an `Until`, accepted on a floor, may not apply to the
  version in use (`FloorBelowUntil`).
- baseline: a recorded publisher is forgotten, at an unmoved version, exactly when the
  release was read again and named nobody; a provenance lookup that fails names nobody, so
  on an index without accounts it erases the publisher and keeps the provenance it came from
  (`PublisherLostExactly`), and TD002 has nothing left to compare with
  (`FailedLookupForgets`).
- fixer: a setting one run fixed is fixable again exactly when its write was swallowed
  (`FixableAgainExactly`), as happens to the rule that asks for hashes on a pip.conf whose
  last entry is indented less than its first. There it happens in every run, and each one
  adds a line (`PipIsFixableAgain`, `NeverSettles`).
- fixer: after a run whose writes each land or are swallowed, for rules whose keys are apart,
  a second run writes exactly when a rule was overtaken by another that created a file the
  first may not create, or a write was swallowed and the codec would write its key again
  (`SecondRunWritesExactly`, `DisagreementLeavesWork`). For ini files the codec always would
  (`IniSecondRun`). Rules may disagree about a file that is there from the start
  (`AgreementLeavesNothing`). The keys have to be apart: of two ini rules for one key the
  first can be overtaken with nothing left to write (`SharedKeyIsStated`), and a codec made
  up for the purpose writes again where one key is inside the other
  (`KeysTogetherLeaveWork`).
- fixer: a file created in the run is copied exactly when a second write into it is tried,
  so a backup may hold what nobody ever had (`CreatedIsCopiedExactly`,
  `CreatedFileIsCopied`).

## Model

| member | source | states |
|---|---|---|
| Document.Bytes | internal/configfile/configfile.go:216-232 | the buffer loop writes the mark, the lines and the endings, and nothing else |
| Document.RoundTrip | internal/configfile/configfile.go:170-232 | a file read and written back unedited is the same file, byte for byte, exactly when its line endings are all of one style |
| Document.ApplyFrame | internal/configfile/configfile.go:260-282 | Apply succeeds exactly on a range the file has; every line before and after the range is the line it was; the length arithmetic of replacements and insertions; the final newline |
| Document.ReadBack | internal/configfile/configfile.go:170-232 | a document that some file reads as is read back unchanged after it is written |
| IniScan.IniAssignment | internal/configfile/ini.go:313-337 | the name, the list mark, the separator and the value of one line |
| IniScan.IniScan | internal/configfile/ini.go:252-283 | the scanning loop files exactly the assignments and headers of a line-by-line reading in which a deeper line continues the entry above |
| IniPlaces.Placed | internal/configfile/ini.go:252-300 | every entry stands on a line that reads as it, in the section of the lines above |
| IniCode.IniMatched | internal/configfile/ini.go:133-147 | the list lines of a key when there are any, its last line otherwise |
| IniCode.IniListValue | internal/configfile/ini.go:175-199 | the items of list lines and their continuations, editable when they are consecutive single lines |
| IniCode.IniValue | internal/configfile/ini.go:150-170 | the kind, the text and whether a key may be rewritten |
| IniCode.IniFind | internal/configfile/ini.go:114-127 | the entries of a key and its value, an error for a key of more than two levels |
| IniCode.IniGet | internal/configfile/ini.go:72-78 | the value of a key, an error for a key of more than two levels |
| IniCode.IniListLines | internal/configfile/ini.go:393-399 | one line for every item |
| IniCode.IniStyle | internal/configfile/ini.go:405-415 | the indentation and separator of the first entry of the section, or of the first entry of the file when the section has none |
| IniCode.IniInsertAt | internal/configfile/ini.go:419-455 | where a new line goes, and whether a header goes with it |
| IniCode.IniReplace | internal/configfile/ini.go:340-359 | the edit of a key the file states |
| IniCode.IniInsert | internal/configfile/ini.go:364-381 | the edit of a key the file does not state |
| IniCode.IniSet | internal/configfile/ini.go:82-97 | what Set answers: a bad key, nothing to do, a refusal or an edit |
| IniFile.NothingIsHeld | internal/configfile/ini.go:82-97 | Set plans nothing exactly when the file already holds the value |
| IniLaws.ReplaceLaw | internal/configfile/ini.go:340-359 | after a replacement the key holds the value exactly when the literal reads back and the lines replaced decide the key; every other key reads as it did |
| IniInsert.InsertLaw | internal/configfile/ini.go:364-455 | after an insertion that no line is continued by, the key holds the value exactly when the literal reads back; every other key reads as it did |
| IniFile.SetLaw | internal/configfile/ini.go:82-97 | set-then-get, idempotence and the frame on every file: the key is stated exactly when its line lands; it holds the value and a second Set plans nothing exactly when Settles says so; and where no line is taken for a continuation every other key keeps its kind, text and items |
| IniFile.FileLaw | internal/configfile/ini.go:82-97 | set-then-get, idempotence and the frame, under the same conditions, through Apply, writing the file and reading it again |
| IniLaws.EmptyListNeverHolds | internal/configfile/ini.go:490-520 | no file holds an empty list, which is why lists to be set are not empty |
| IniInsert.InsertExact | internal/configfile/ini.go:405-455 | inside a section, an insertion leaves every line reading as it did exactly when neither the new line nor the one below it is taken for a continuation |
| IniInsert.JoinedToEntryAbove | internal/configfile/ini.go:294-300 | an inserted line indented deeper than the entry above it is read as more of that entry, and the key stays missing |
| IniExamples.HeaderCaptured | internal/configfile/ini.go:294-300 | a file in which the header below an inserted line becomes a continuation of it, and its section is lost |
| IniExamples.PlainBelowList | internal/configfile/ini.go:133-147 | a file in which a plain line below a rewritten list keeps the last word |
| IniExamples.WordBecomesBool | internal/configfile/ini.go:468-481 | the string "true" reads back as a boolean |
| IniExamples.QuotedLosesQuotes | internal/configfile/ini.go:468-481 | a string in quotes of its own reads back without them |
| Offsets.LineStarts | internal/configfile/toml.go:139-146 | the offset every line begins at |
| Offsets.Line | internal/configfile/toml.go:122-124 | the binary search finds the 1-based line an offset falls on: one more than the newlines before it |
| Offsets.Column | internal/configfile/toml.go:128-134 | the bytes between an offset and the newline before it |
| Offsets.OffsetIsColumn | internal/configfile/toml.go:136-142 | cutting the joined text at an offset cuts the line of the document at the column |
| Offsets.EditIsSplice | internal/configfile/json.go:93-120 | an edit of a byte range on its lines is the text before the range, the new value and the text after it |
| TomlCode.TomlScan.ReadQuoted | internal/configfile/toml.go:664-682 | one line string: how far it goes and whether it is closed |
| TomlCode.TomlScan.SkipMultiline | internal/configfile/toml.go:685-700 | a multi-line string, one byte past the end of the text included |
| TomlCode.TomlScan.ReadKeyPath | internal/configfile/toml.go:498-531 | a dotted key: its parts, where the last one ends and where the cursor stops |
| TomlCode.TomlScan.SkipBracketed | internal/configfile/toml.go:635-659 | an array, over the strings and comments in it |
| TomlCode.TomlScan.ReadAssign | internal/configfile/toml.go:535-548 | the value, trimmed of the spaces that end it, recorded behind the ones inside it; or the panic |
| TomlCode.TomlScan.ReadValue | internal/configfile/toml.go:553-582 | every form of value and why it may not be rewritten |
| TomlCode.TomlScan.ReadInlineTable | internal/configfile/toml.go:587-630 | the keys inside, and the refusal of all of them when the braces are on two lines |
| TomlCode.TomlScan.Mark | internal/configfile/toml.go:587-630 | the reasons rewritten from the mark on, and only there |
| TomlCode.TomlScan.ReadHeader | internal/configfile/toml.go:327-334 | a table header |
| TomlCode.TomlScan.Run | internal/configfile/toml.go:448-477 | the cursor machine ends on every text, strictly advancing, and records exactly what the reading of the text as nested constructs records; it panics exactly when that reading does |
| TomlRanges.RangesAreSound | internal/configfile/toml.go:448-700 | on every text that is scanned to its end, closed or not: keyEnd <= start <= end <= the length; an editable value is on one line; two values are apart, or the one recorded first lies inside the other, which is an inline table |
| TomlPanics.BackslashAtTheEnd | internal/configfile/toml.go:685-700 | a text on which the scan indexes past the end, before the decoder could refuse it |
| TomlPanics.DotAtTheEnd | internal/configfile/toml.go:587-630 | a second kind of such a text: an open inline table that ends in the dot of a key |
| TomlPanics.ScanStops | internal/configfile/toml.go:448-700 | one family of texts that are never read past their end, closed or not: those that end with a newline no backslash stands before |
| TomlSpell.SpellIsCompact | internal/configfile/toml.go:409-426 | a spelled value is one line and neither begins nor ends with a space |
| TomlSpell.SpellIsRead | internal/configfile/toml.go:553-582 | started on anything tomlSpell wrote with a value terminator behind it, value stops at its end or in the spaces behind it and refuses nothing |
| TomlMove.ValueLocal | internal/configfile/toml.go:553-582 | a value read before byte m is read the same in every text that agrees up to there |
| TomlMove.ItemsLocal | internal/configfile/toml.go:587-630 | the rest of an inline table read before byte m is read the same in every text that agrees up to there |
| TomlMove.RunShift | internal/configfile/toml.go:448-477 | the scan of a text at another offset is the scan, moved |
| TomlReplace.SelfReplaced | internal/configfile/toml.go:535-552 | the replaced assignment itself: both values end in the spaces behind them, and the record differs in its end alone |
| TomlReplace.ReplaceRun | internal/configfile/toml.go:448-477 | the scan of the text with one value replaced is the scan of the old text with the offsets behind the value moved: same paths, same order, same reasons, same headers |
| TomlSet.RewritableOnOneLine | internal/configfile/toml.go:97-110 | the line Set cuts holds the whole value |
| TomlSet.SetLaw | internal/configfile/toml.go:83-110 | Set on a key the file states, applied and scanned again: the same assignments in the same order, the key found where it was and holding the spelled literal, every other value but the tables around it with its bytes unchanged, one line edited |
| Jsonc.JsonStringLen | internal/configfile/json.go:574-584 | a string, up to its closing quote, is what the automaton calls string |
| Jsonc.JsonNextContent | internal/configfile/json.go:564-570 | the next byte that is neither white space nor comment |
| Jsonc.StripComments | internal/configfile/json.go:507-545 | the first loop blanks exactly the bytes the automaton calls comment |
| Jsonc.JsonStrip | internal/configfile/json.go:507-561 | same length, every byte the original or a space; blanked exactly when it is comment or a comma before a closing bracket; the trailing offsets strictly increasing and exactly those commas |
| Jsonc.WasBlanked | internal/configfile/json.go:427-430 | the binary search finds exactly the trailing commas |
| Jsonc.HoldsComment | internal/configfile/json.go:322-329 | true exactly when a byte of the range that is no white space is comment |
| Jsonc.HeldMeansComment | internal/configfile/json.go:322-329 | over a range that begins outside comments, that is whether the range holds any comment |
| Jsonc.JsonHasComma | internal/configfile/json.go:413-423 | a comma is the next thing behind a value, trailing or not |
| Jsonc.CopyModes | internal/configfile/json.go:507-562 | reading the copy is in a string exactly where reading the file is |
| Jsonc.CopyHasNoComments | internal/configfile/json.go:507-562 | the copy has no comment anywhere |
| MemoLaws.RunInv | internal/checks/loader.go:580-648 | the invariant holds after every interleaving |
| MemoLaws.OneFetcher | internal/checks/loader.go:593-632 | at most one call at a time is fetching a key |
| MemoLaws.DeletesItsOwn | internal/checks/loader.go:593-632 | the entry a call deletes by key is the one it made |
| MemoLaws.ClosedOnce | internal/checks/loader.go:580-648 | no channel is closed twice |
| MemoLaws.AbandonedIsGone | internal/checks/loader.go:593-632 | when a waiter sees an abandoned entry the map no longer has it |
| MemoLaws.StepRefines | internal/checks/loader.go:580-648 | every step does to the published answers what one step of a write-once map does |
| MemoLaws.PublishedForGood | internal/checks/loader.go:580-648 | an answer once published is never changed or withdrawn |
| MemoLaws.ReturnsPublished | internal/checks/loader.go:593-632 | a call that returned an answer it fetched or waited for returned the published one |
| MemoLaws.Agreement | internal/checks/loader.go:593-632 | any two calls for one key whose contexts did not end return the same value and error |
| MemoLaws.RetryBound | internal/checks/loader.go:593-632 | a call goes round the loop at most once for every other call whose own context ended |
| MemoLaws.EveryCallEnds | internal/checks/loader.go:593-632 | a bound on the steps of a call, in every run with finitely many calls |
| MemoLaws.NoDeadlock | internal/checks/loader.go:593-632 | a call that has not returned can step, or waits for a call that can |
| MemoCode.Table.LookOrMake | internal/checks/loader.go:593-607 | the locked lookup-or-insert is the step of that name |
| MemoCode.Table.Store | internal/checks/loader.go:636-648 | store never overwrites, and is the step of that name |
| MemoCode.Table.Do | internal/checks/loader.go:593-632 | do when no other call runs, with its context ended or not: the answer the table has, or its leave, or the fetched one, kept unless it failed under an ended context; and it is the run of the steps of a lone call of the system |
| MemoCode.PrefetchAdvisories | internal/checks/loader.go:172-207 | beside any calls in flight the batch stores its answer for every ref in turn, or nothing when the context ended; on a table no call is using every ref has an answer afterwards, its own from the batch unless it had one, and no other key changes |
| Names.ContainsFold | internal/checks/td002.go:516-523 | membership whatever the case |
| Names.NormalizeNames | internal/baseline/baseline.go:249-268 | the method computes the maintainer set |
| Names.MaintainerSetIs | internal/baseline/baseline.go:249-268 | ascending, no name twice in any spelling, only trimmed names that were given, every name given among them |
| Names.MaintainerSetTwice | internal/baseline/baseline.go:249-268 | made again it is the same set |
| BaselineFile.File.Put | internal/baseline/baseline.go:316-333 | the records with this observation merged in, and no other key changed; the entries sorted without duplicates |
| BaselineFile.File.Lookup | internal/baseline/baseline.go:289-310 | the record of a package by its canonical name |
| BaselineFile.File.Keep | internal/baseline/baseline.go:378-395 | the entries of locked packages stay, the others are returned |
| BaselineFile.File.Sort | internal/baseline/baseline.go:400-407 | ascending by ecosystem and name, the same entries |
| Baseline.RecordsAre | internal/baseline/baseline.go:289-333 | a sorted file records exactly its entries |
| Baseline.SameRecords | internal/baseline/baseline.go:400-410 | two sorted files that record the same are the same file |
| Baseline.PutsCommute | internal/baseline/baseline.go:316-333 | observations of two packages may be put in either order, with the same file, line for line |
| Baseline.RecordedTwice | internal/baseline/baseline.go:338-370 | recording an observation twice is recording it once |
| Baseline.KeepSplits | internal/baseline/baseline.go:378-395 | Keep loses nothing, keeps exactly the locked packages, and leaves both halves in order |
| BaselineFile.Observe | internal/baseline/observe.go:127-166 | what an observation holds of what the signals answered |
| BaselineFile.ObservationsAreWellRead | internal/baseline/observe.go:127-166 | an observation that did not read a half leaves that half empty |
| BaselineFile.Update | internal/baseline/observe.go:220-239 | every observation put, then a full snapshot keeps the records of locked packages and returns, in order, exactly the others |
| BaselineFile.KeptRecords | internal/baseline/observe.go:220-239 | the records left are those of locked packages, the records returned all the others |
| BaselineHistory.RecordOfEach | internal/baseline/baseline.go:316-333 | a package records what its record in the file, if any, and its own observations make of it, whatever was put in between |
| BaselineHistory.MaintainersAreLatest | internal/baseline/baseline.go:338-370 | after any sequence of observations the maintainers are those of the latest one that read them |
| BaselineHistory.ReleaseIsLatest | internal/baseline/baseline.go:338-370 | version and publisher move together, from the latest observation that read the release |
| BaselineHistory.ProvenanceStays | internal/baseline/baseline.go:338-370 | the provenance recorded was read from the very version recorded |
| BaselineHistory.ProvenanceIsLatest | internal/baseline/baseline.go:338-370 | when the latest observation of the release read its provenance, that is the one recorded; reading that there is none clears it |
| BaselineHistory.ObservedAtIsLastChange | internal/baseline/baseline.go:181-197 | observed_at is the time the current signals last changed |
| BaselineHistory.SameObservationTwice | internal/baseline/baseline.go:316-333 | putting the same observation twice equals once |
| BaselineChecks.PublisherNames | internal/checks/td003.go:292-301 | the names of a publisher list |
| BaselineChecks.NamesMissingFrom | internal/checks/td003.go:314-322 | the names of one list that are not in the other, in any case |
| BaselineChecks.PassMeansSameSet | internal/checks/td003.go:141-163 | TD003 passes on the baseline exactly when the registry lists the recorded maintainers and nobody else |
| BaselineChecks.BaseDecides | internal/baseline/baseline.go:446-473 | with a base revision the record compared with is the base one |
| BaselineChecks.WorkingTreeHasNoSay | internal/checks/td003.go:223-241 | with a base revision, whether TD003 and TD002 skip, pass or find, and what they compare with, is the same for every working-tree baseline |
| BaselineChecks.RewrittenMeansEdited | internal/baseline/baseline.go:446-473 | a record the change edited or deleted is said to be rewritten, and no other |
| BaselineChecks.Targets | internal/baseline/observe.go:99-121 | the loop that picks one ref for each package |
| BaselineChecks.TargetsAre | internal/baseline/observe.go:99-121 | one target for every package a versioned ref names, each the first of its package |
| BaselineChecks.Compare | internal/baseline/observe.go:271-286 | the changes, one for each observation that differs from its record |
| BaselineChecks.ChangeMeansDifferent | internal/baseline/observe.go:271-286 | a change is reported exactly when both sets were read and one names somebody the other does not |
| TrustDowngrade.StrengthOrders | internal/checks/td004.go:15-18 | kind decides first and verification second |
| TrustDowngrade.CleanOrSkip | internal/checks/check.go:266-277 | the sources that did not answer, in order |
| TrustDowngrade.CleanMeansAnswered | internal/checks/check.go:266-277 | a check passes exactly when none of its sources was out |
| TrustDowngrade.FindLiftable | internal/checks/td004.go:299-316 | the first predecessor deps.dev could have lifted above the evaluated release |
| TrustDowngrade.DowngradeIsReal | internal/checks/td004.go:83-220 | a finding names the release that was read and carried the most; without one none that was read carried more; where there is anything to judge |
| TrustDowngrade.PassIsSound | internal/checks/td004.go:115-150 | a pass hides no finding any completion of the missing answers could make, exactly unless deps.dev lost a lookup about a predecessor that would have decided |
| TrustDowngrade.PassOverLostLookup | internal/checks/td004.go:249-280 | a subject that passes although such a lookup was lost |
| TrustDowngrade.KnownFactsHide | internal/checks/td004.go:226-316 | with deps.dev's facts about the release in hand, only a lost lookup can hide a finding |
| TrustDowngrade.SkipIsNeeded | internal/checks/td004.go:226-316 | a skip over an outage: some answer would have made a finding, exactly under the condition stated |
| TrustDowngrade.SkipOverOtherOutage | internal/checks/td004.go:115-150 | a skip no answer could have justified: only deps.dev's findings were out |
| TrustDowngrade.LagHasNoSay | internal/checks/td004.go:282-297 | when deps.dev has not indexed the release or lists no attestation for it, the verdict does not depend on its facts about predecessors |
| Runner.Applicable | internal/checks/runner.go:522-536 | the checks of the ecosystem whose level is not off, by id |
| Runner.NamesOutage | internal/checks/runner.go:511-518 | a reason that carries the wording of an outage |
| Runner.Outcome.RunOne | internal/checks/runner.go:440-472 | one check filed on the outcome |
| Runner.Outcome.SkipAll | internal/checks/runner.go:486-499 | the lockfile checks run, the others skipped with one reason |
| Runner.Outcome.Evaluate | internal/checks/runner.go:399-435 | the whole outcome of a subject, on either path |
| Runner.EvaluateMeans | internal/checks/runner.go:415-498 | every applicable check filed exactly once, as evaluated exactly when it ran; the findings are those of expired entries and of the checks that ran under no active allow entry, all and no other; and the outcome counts as unavailable exactly when Lacking says so |
| Runner.FiledOnce | internal/checks/runner.go:522-536 | among the checks filed for a subject each registered one that applies is there exactly once, and no other |
| Runner.AllowedIsSilent | internal/checks/runner.go:440-470 | no finding of a check an active allow entry covers reaches the outcome, expired entries being reported under an id of their own |
| Runner.UnfinishedIsForgotten | internal/checks/runner.go:486-499 | a concrete lockfile check that did not finish leaves no mark when the others were skipped for a definite reason |
| Runner.MarkFirstInFile | internal/checks/runner.go:174-189 | the flag is set for the entry nearest the top of its file and for no other |
| Runner.OneFirst | internal/checks/runner.go:174-189 | every file with an entry has exactly one that is first |
| Versions.VersionParts | internal/doctor/doctor.go:459-483 | the segments of a version |
| Versions.CompareVersions | internal/doctor/doctor.go:433-455 | the sign of the first difference, missing segments read as zero |
| Versions.TotalPreorder | internal/doctor/doctor.go:433-455 | reflexive, antisymmetric in sign, transitive |
| Versions.DotZero | internal/doctor/doctor.go:433-483 | a trimmed version, with a suffix or without, equals itself with ".0" appended |
| Versions.UnreadableIsLowest | internal/doctor/doctor.go:459-483 | an unreadable segment is below exactly the numbers whose low 64 bits are under 2^63, and equal to exactly those whose low 64 bits are all set |
| Versions.HugeIsBelowUnreadable | internal/doctor/doctor.go:459-483 | a number that wraps is below an unreadable segment |
| Versions.FloorIsSound | internal/doctor/doctor.go:286-325 | a floor accepted without a caveat: the rule applies at every exact version from the floor on exactly until it is replaced |
| Versions.FloorBelowUntil | internal/doctor/doctor.go:286-325 | a rule with an Until accepted on its floor does not apply to the version in use |
| Blocks.ScanUses | internal/doctor/scan_actions.go:81-140 | the results of a file: its problems in order, or one summary when all are pinned |
| Blocks.RoundTracks | internal/doctor/scan_actions.go:81-140 | the one integer the loop keeps makes it skip exactly the lines of an open block scalar |
| Blocks.OneOpen | internal/doctor/scan_actions.go:81-140 | at most one block scalar is open at a line |
| Blocks.ProblemsAre | internal/doctor/scan_actions.go:81-140 | a line has a problem reported exactly when it is a uses line outside block scalars that is not pinned |
| Blocks.ProblemsInOrder | internal/doctor/scan_actions.go:81-140 | the problems of a file are reported in line order, one for each line that has one |
| Desired.FoundIsNeverMissing | internal/doctor/desired.go:76-98 | a value somebody wrote is never judged missing |
| Desired.DefaultsStay | internal/doctor/desired.go:191-212 | a default credited to an exact version is credited to every later one |
| Desired.FloorCreditsNothing | internal/doctor/desired.go:236-246 | a floor credits no default that has a version of its own |
| Fixer.EvaluateTargets | internal/doctor/run.go:185-245 | the target a rule is judged on, fallback included |
| Fixer.Card.ApplyFixes | internal/doctor/fix.go:27-63 | the files, copies, results and the sets of changed and failed files of a run |
| Fixer.StatedIsNotMissing | internal/doctor/run.go:185-245 | a rule whose target states the key does not end in a missing setting |
| Fixer.BackupsArePreRun | internal/doctor/fix.go:86-163 | a file there at the start is copied at most once, with what it held then, and a file that changed was copied |
| Fixer.CreatedFileIsCopied | internal/doctor/fix.go:86-163 | a concrete run in which a file the run created is copied |
| IniTaken.InsertHolds | internal/configfile/ini.go:364-455 | adding a key, in every file: it is stated afterwards exactly when its line is not taken for more of the entry above, and holds the value exactly when Takes says so: the literal reads back, the line takes nothing below it but under a list, and no line below is drawn into the section and speaks later |
| IniExamples.PipStaysMissing | internal/configfile/ini.go:294-300 | a pip.conf in which the line added for a setting becomes more of the entry above it |
| IniKept.IdleStays | internal/configfile/ini.go:82-97 | a key Set had nothing to write for has nothing to be written after an edit of another key: a refused value stays refused, a list spread over lines stays spread |
| IniKept.LostIsHarmless | internal/configfile/ini.go:294-300 | a line that is taken for more of the entry above it states no key and takes none away |
| TomlOpen.OverrunsIsUnpaired | internal/configfile/toml.go:685-700 | a multi-line string steps past the end exactly when it is a basic one that has no closing quotes and whose last byte is a backslash an even number does not pair |
| TomlOpen.KeyOverruns | internal/configfile/toml.go:498-531 | a key is not read and leaves the cursor at the end exactly when it runs out behind a dot or in a quoted part nothing ends |
| TomlOpen.PanicsExactly | internal/configfile/toml.go:448-700 | the scan of a text reads past its end exactly when, at a place the scanner reads from, such a string is open or such a key of an inline table runs out |
| TomlOpen.ClosedIsSound | internal/configfile/toml.go:448-700 | a text in which every multi-line string has its closing quotes and every inline table its brace, with or without a newline at its end, is scanned, and the ranges recorded are sound |
| TomlOpen.OneLineIsClosed | internal/configfile/toml.go:136-142 | a file of one plain line, joined without its final newline, is such a text |
| TomlPanics.QuoteAtTheEnd | internal/configfile/toml.go:498-531 | a third kind of such a text: a quoted key of an inline table that nothing ends |
| Runner.UnavailableMeans | internal/checks/runner.go:415-498 | when an outcome counts as unavailable: with the data loaded, when a check that was asked says so; without it, when it is missing and a check needed it |
| Runner.MarksSurvive | internal/checks/runner.go:486-499 | the mark of every check that ran reaches the outcome exactly when the data was loaded, or was missing for a check that needed it, or no check of the lockfile alone set one |
| Versions.UnreadableVersion | internal/doctor/doctor.go:433-483 | two versions that agree up to a segment unreadable in the first and a number or missing in the second: below, decided by the segments behind, or above, by the low 64 bits of the number |
| Baseline.ShapedTwice | internal/baseline/baseline.go:204-217 | normalizing an entry twice is normalizing it once |
| FixerLaws.MissingIs | internal/doctor/run.go:185-245 | a rule is judged missing exactly when none of its keys is stated or unreadable and the default is not credited, and its target is then the first that is there or may be created |
| FixerLaws.FixableAgainExactly | internal/doctor/fix.go:27-83 | a setting one run wrote is fixable again exactly when its write was swallowed, whatever else the run wrote apart from its key, be it landed or swallowed |
| FixerLaws.WrittenSurvives | internal/doctor/fix.go:86-163 | every setting a run wrote holds its value at the end exactly when its write settled, however many rules wrote into the file after it, as long as those writes landed and were apart from its key |
| FixerAgain.SecondRunWritesExactly | internal/doctor/fix.go:27-163 | for rules whose keys are apart and a first run whose writes each land or are swallowed: a second run writes exactly when some rule was overtaken, its key missing and not written while another result created a file it may not create and the codec would write the key into that file, or some write was swallowed and the codec would write its key again |
| FixerAgain.SecondRunChangesNothing | internal/doctor/fix.go:27-163 | where no rule was overtaken and none is left unmet by a swallowed write, a second run leaves every file as it is |
| FixerAgain.OvertakenMeans | internal/doctor/fix.go:27-163 | the file was created by a result that may; when it is the place the overtaken result had, that result met it before it was there and the creator came later |
| FixerAgain.AgreementLeavesNothing | internal/doctor/fix.go:27-163 | rules that agree which files may be created, or find them all there, are not overtaken |
| FixerAgain.DisagreementLeavesWork | internal/doctor/fix.go:27-163 | a concrete second run that writes, because two rules disagree on whether a file may be created |
| FixerAgain.KeysTogetherLeaveWork | internal/doctor/fix.go:27-163 | a second run that writes although the codec is lawful and the rules agree, because one key is inside the other; the codec is one of two texts made for this, none of the source |
| Fixer.CreatedIsCopiedExactly | internal/doctor/fix.go:86-163 | with backups on, a file that was not there is copied exactly when a write into it is tried after one that succeeded, and the copy is what the first write left |
| FixerIni.IniIsLawful | internal/configfile/ini.go:82-97 | the ini codec keeps every law the fixer relies on, for the writes that land or are swallowed, on every file |
| FixerIni.PipIsFixableAgain | internal/doctor/rules_python.go:93-105 | a pip.conf on which the rule that asks for hashes is written and swallowed in every run: after n runs the file is n lines longer, the rule is fixable and is written once more |
| IniSwallowed.SwallowedAgain | internal/configfile/ini.go:294-455 | a line that is taken for more of the entry above it is taken so again when it is written again, and the file only grows |
| IniTaken.ClearTakes | internal/configfile/ini.go:364-455 | where no line is taken for a continuation, an inserted key holds its value exactly when the literal reads back |
| FixerIni.SettlesMeans | internal/configfile/ini.go:82-97 | the same for a file: a key it does not state holds what is written for it, where no line is taken for a continuation, exactly when the literal reads back |
| FixerIni.IniSecondRun | internal/doctor/fix.go:27-163 | over ini files a second run writes exactly when the first lost a line to the entry above it, or passed over a rule in a file another result created |
| FixerIni.SharedKeyIsStated | internal/doctor/fix.go:27-163 | two ini rules for one key: the first is passed over, and a second run has nothing to write for it because the second rule stated the key, so keys apart are needed for the equivalence |
| FixerIni.NeverSettles | internal/doctor/fix.go:86-163 | a setting that is swallowed once is swallowed every time: however often it was written it is absent, it would be written once more, and each time the file has grown |
| BaselineForgets.PublisherLostExactly | internal/baseline/baseline.go:338-370 | a recorded publisher is forgotten while the version stays exactly when the release was read again, the registry named no account, and the provenance named none or was not read |
| BaselineForgets.FailedLookupForgets | internal/baseline/observe.go:136-193 | a provenance lookup that fails makes the record of an index without accounts forget its publisher and keep the provenance, and TD002 then compares with nothing |
| MemoCode.BatchIsSteps | internal/checks/loader.go:172-207 | a batch is a run of Store steps of the system, so every reachable-state result holds with a batch among the calls |
| MemoCode.BatchLeaves | internal/checks/loader.go:172-207 | beside any calls in flight a batch replaces and touches no entry and moves no call; every ref without an entry gets a complete one of its own, and no other key gets one |
| MemoFates.FetchDecides | internal/checks/loader.go:593-632 | what comes of a fetch, in every run: the call returns what it brought, by way of a dropped entry exactly when that is an error and the context of the call had ended when it tested for it, and as its own entry for good in every other case |
| MemoFates.EndedFetchIsNotPublished | internal/checks/loader.go:593-632 | no call publishes the error of a fetch whose context had ended: an answer published for the key is another |
| MemoFates.PublishedWasGiven | internal/checks/loader.go:586-640 | every published answer was returned by a fetch of that key, or stored for it |
| MemoFates.EndedWaiterLeaves | internal/checks/loader.go:593-632 | a waiter whose context ended can always leave with the error of its own context |
| MemoCode.LostOrAnswered | internal/checks/loader.go:172-207 | a ref the batch lost is answered with its error and no value, every other ref with what came back for it and no error |
| IniStated.ScanIsStated | internal/configfile/ini.go:252-283 | of every file put together from blank lines, comments, headers, keys with their values and continuation lines, and words, none of them so deep that it would continue the value above it, the scan files exactly the keys, values, places and headers it was put together from |
| IniShown.GetExactly | internal/configfile/ini.go:114-240 | what Get answers: nothing when no entry is of the key; the values of its list lines, in order, when there are any; and else the value, unquoted or continued, of its last entry, as a string when it is quoted, a boolean, a number or a string |
| IniShown.HoldsOne | internal/configfile/ini.go:490-520 | a value holds one literal, however a number is spelled |
| IniRefused.RefusedExactly | internal/configfile/ini.go:82-97 | a stated key that does not hold the value: Set refuses exactly when "${" stands in the text of an entry it may replace, continuation lines included, or its list lines have another line between them |
| IniRefused.EnvIsRefused | internal/configfile/ini.go:206-217 | an .npmrc with the line min-release-age=${AGE}: Set of that key to 7 is refused |
| IniWritten.RewrittenExactly | internal/configfile/ini.go:340-359 | the lines Set replaces, from the first it may to the last, and what it writes: one line for every item, the line with its value cut off and written anew, or a line in the style of the first |
| IniWritten.InsertedExactly | internal/configfile/ini.go:364-455 | where a new key goes: below the last key of the file itself, above the first header and what introduces it, behind the last line of its section that is not blank, or at the end under a header of its own; and the lines written there |
| IniWritten.StyleIs | internal/configfile/ini.go:405-415 | the indentation and the separator are those of the first key of the section, or of the file when the section has none, and none and "=" in a file without keys |
| IniWritten.SpelledExactly | internal/configfile/ini.go:468-481 | a string is quoted exactly when it is empty, begins or ends with a space or holds a line end |
| TomlStated.ScanIsStated | internal/configfile/toml.go:448-728 | of every file written as TOML is, with all its kinds of keys, strings, arrays, inline tables and comments, the scan records exactly the keys it states, in order: the full path, where the key ends, the range of the value without the spaces and the comment behind it, the reason it must not be replaced, whether it is above every header; and every header |
| TomlStated.ValueIsRead | internal/configfile/toml.go:553-582 | how far each kind of value is read, why it may not be replaced, and the keys inside an inline table |
| TomlReads.KeyIsRead | internal/configfile/toml.go:498-531 | a dotted key is read part by part, bare and quoted, to the end of the spaces behind it |
| TomlReads.InsideRead | internal/configfile/toml.go:635-659 | what stands in an array, comments, strings and brackets inside brackets, is read over to the bracket that closes it |
| TomlBare.BareValuesStop | internal/configfile/toml.go:553-582 | in every text: a recorded value that opens with no quote or bracket holds no newline, "#", "," or closing bracket, and behind it there are only spaces up to one of these or to the end |
| TomlBare.LineKept | internal/configfile/toml.go:83-115 | the line Set writes is the old one with the value replaced: what stands before the value and behind it, a trailing comment say, is still there |
| JsoncStated.CopyIsStated | internal/configfile/json.go:507-561 | of every file put together from strings, comments and other bytes the copy is the same bytes, with the comments spaces up to their newline and a comma a space exactly when nothing but space and comments stand between it and a closing bracket |
| TrustDowngrade.SkipsExactly | internal/checks/td004.go:83-220 | a skip that is no outage: exactly when the release or the previous one is missing, the previous one failed to load, or the provenance of either is unknown |
| TrustDowngrade.DowngradeExactly | internal/checks/td004.go:83-220 | there is a finding exactly when the previous release or a base release that takes part carried more; it names the base exactly when that carried more than the previous one, and it is held at warn exactly when it names the previous one and that is a later version |
| TrustDowngrade.PassesExactly | internal/checks/td004.go:226-318 | what found nothing passes, or skips over an outage exactly when the base provenance is unknown below the most there is, the base could not be asked for, or deps.dev was out and an attestation only it could vouch for would have made a finding |
| TrustDowngrade.VouchedBy | internal/checks/td004.go:322-339 | who is named for a verification: whom the registry names, then deps.dev for an attestation it verified, then the registry |
| Runner.EachFate | internal/checks/runner.go:399-498 | what each registered check comes to: one that is started and ran is evaluated, with all its findings unless an active allow entry covers it; young-version alone is skipped for cooldown_exclude, TD008 and TD012 alone for an allow entry, and those that need data when there is none |
| Runner.FindingsExactly | internal/checks/runner.go:399-498 | a finding is reported exactly when an expired allow entry makes it or a registered check that was started and is under no active entry returned it |
| Runner.UnavailableExactly | internal/checks/runner.go:399-498 | an outcome counts as unavailable exactly when a registered check that was started gave no result for want of data, or the data is missing and a check needed it |
| Runner.SkippedInOrder | internal/checks/runner.go:710-718 | the outcome is sorted: evaluated by id, skips by check and reason, findings by id and title with ties in the order they were returned; nothing is lost |
| Runner.FirstMeans | internal/checks/runner.go:174-189 | an entry is first when none of its file is on a line above it and none given before it on the same line |
| VersionsRead.ReadsWritten | internal/doctor/doctor.go:459-483 | a version of numbers and dots, with a v, spaces and a suffix or without, is read as those numbers, each as 64 bits |
| VersionsRead.ComparesWritten | internal/doctor/doctor.go:433-483 | of two such versions one is earlier exactly when its number is smaller at the first place they differ, and they are equal exactly when they differ nowhere |
| VersionsRead.AppliesAtVersion | internal/doctor/doctor.go:295-325 | at an exact version a rule applies exactly from Since on and before Until, without a caveat |
| VersionsRead.AppliesAtFloor | internal/doctor/doctor.go:295-325 | on a floor, or with no version known, when a rule applies and when with a caveat |
| VersionsRead.AppliesByNumber | internal/doctor/doctor.go:286-325 | the same by the numbers of the versions as they are written |
| DesiredRead.JudgesBool | internal/doctor/desired.go:191-212 | a boolean somebody wrote: set when it says what the rule asks for, in any case and with spaces, weak when it says the opposite, wrong when it says neither |
| DesiredRead.JudgesEnum | internal/doctor/desired.go:254-275 | a value of a fixed set: set exactly when it is the one asked for, with or without spaces around it |
| DesiredRead.JudgesWait | internal/doctor/desired.go:76-98 | a wait: wrong when it is no duration, weak when it is none or shorter than the policy asks for, set from there on |
| DesiredRead.MissingExactly | internal/doctor/desired.go:38-48 | a setting nobody wrote is missing exactly when no default that can be counted on is what the rule asks for |
| FixerSteps.EvaluatesExactly | internal/doctor/run.go:185-245 | the first target that cannot be read or says something of the key decides; when none does the rule is judged on the default, and its target is the first that is there or may be created, or else the first |
| FixerSteps.TriesExactly | internal/doctor/fix.go:66-163 | when trying a result writes, fails or does nothing, which file changes and to what, and which file is copied, in every case |
| BaselineVerdicts.ComparedWith | internal/baseline/baseline.go:444-473 | what a check may compare with: the base file's record, by content, when there is a base revision, and nothing when it has none; the working tree's own record otherwise; and whether it is said to be rewritten |
| BaselineVerdicts.CurrentIs | internal/baseline/baseline.go:444-473 | what is kept of a rewritten record: the working tree's, when it says something else than the base |
| BaselineVerdicts.PublisherExactly | internal/checks/td002.go:299-338 | TD002 compares exactly when the record has a publisher and the release names one from the same source, and passes exactly when the two are one name in any case |
| BaselineVerdicts.MaintainersExactly | internal/checks/td003.go:141-181 | TD003 compares exactly when both sides name somebody; the added are those the registry lists and the record does not, the removed those the record lists and the registry does not, in any case |
| BaselineVerdicts.ObservedExactly | internal/baseline/observe.go:127-193 | what an observation states, field by field, and which gaps it leaves |
| Baseline.SameSignalsMeans | internal/baseline/baseline.go:181-197 | two observations are the same when they differ in nothing but their time and their gaps |
| Baseline.InOrderMeans | internal/baseline/baseline.go:400-407 | sorted means by ecosystem and then by name, no package twice |
| Names.LessMeans | internal/baseline/baseline.go:400-407 | byte by byte: the first byte that differs is smaller, or the text ends first |
| Names.FoldMeans | internal/checks/td002.go:516-523 | two spellings are one name when they differ in the case of letters alone |
| Names.PyPINameIs | internal/model/ref.go:101-106 | the canonical name of a PyPI package is its words in small letters with one hyphen between any two |
| BlocksStated.StepsAreReported | internal/doctor/scan_actions.go:81-140 | of every workflow put together from steps, other lines and block scalars the scan reports exactly the steps that are not pinned, each on its line, and counts the pinned ones; nothing a block scalar says is among them |
| TomlReads.LongEndsExactly | internal/configfile/toml.go:685-700 | a multi-line string with quotes of its own right in front of the closing ones is read to its end exactly when there are none |
| TomlStated.QuoteBeforeTheEnd | internal/configfile/toml.go:635-700 | an array of such a string with one quote more: the scan swallows the rest of the file and does not record the key on the next line |

## Left out

- The YAML codec, and what `encoding/json` and `toml.Decode` make of a text: they rest on
  parsers that are not part of this model. `TomlSet.SetLaw` therefore speaks of the bytes
  the scanner places, not of the value a decoder reads, and the plan of an insertion into a
  toml or json file is not modelled.
- TomlSet.SetLaw: says nothing of an inline table replaced by a scalar, because the paths
  inside it are meant to go.
- TomlStated.ScanIsStated: speaks of texts written as TOML is; of others `TomlOpen` and
  `TomlRanges` say what the scan does. A multi-line string in it has no quote right in front of
  its closing ones, and no comma stands behind the last key of an inline table.
- IniStated.ScanIsStated: says nothing of a key that opens with "[", of a "[]" with no name in
  front, and of white space other than spaces and tabs in front of a key.
- TomlPanics.ScanStops: names one family of texts; `TomlOpen.PanicsExactly` is the condition.
- FixerIni.IniIsLawful: promises nothing of a write that takes the line or header below it
  for more of itself; `IniTaken.InsertHolds` says what such a write comes to for its own key.
- FixerAgain.SecondRunWritesExactly: says nothing of a run in which a write takes the line
  or header below it for more of itself, which no law of `Codecs` describes.
- MemoCode.Table.Do: speaks of a call alone; calls that run together are the subject of
  `MemoLaws`.
- Reports, notes, titles, explanations and evidence maps: prose. Kept are the verdict, the
  level and the class of a skip.
- HTTP, registries, OSV, deps.dev, git and the file system: each is a parameter that
  answers, fails definitely or is out. The fixer works on a map from path to content, and a
  path may be unreadable or read-only.
- The goroutines of the prefetch and of the runner: `PrefetchAdvisories` runs between two
  steps of the callers of `do`; steps of theirs between its own are steps of `Memo`.
- `Memo` has no clock and no memory model: a step is atomic, which is what the mutex and the
  channel close give.
- Baseline entries are values that the file replaces, where the source updates fields in
  place; nothing else holds a reference to them.
- `FixerIni` speaks of keys that are trimmed and hold no "=", of values an integer literal
  of which parses, and of files no line of which ends in a stray carriage return.
- `model.NormalizeName` beyond ASCII case and separators, Unicode folding and trimming.
- `olderLine`: whether the previous release is on a later version line is a parameter of
  TD004.
- Settings with units: parsing and formatting a duration are parameters of `Desired`.
- Threshold checks, the typosquat rules, lockfile parsers, the policy file and the watch
  loop: settled by reading one branch, or not shown.
- X.509, base64 and Sigstore bundles: library cryptography.
- `Blocks`: the patterns that recognise a header, a uses line and a pinned reference are
  parameters.
