# automoc4: the moc decision engine

automoc4 is the build helper that decides which Qt `moc` files a target needs.
It reads the target's manifest (`<outfile>.files`). It scans every listed source for
`#include "moc_x.cpp"` / `#include "x.moc"` directives and every header for the `Q_OBJECT`
marker. It runs `moc` where the output is stale, then writes the aggregator translation unit
(`<target>_automoc.cpp`) that includes every moc no source includes itself.

This project models the core of `kde4automoc.cpp`. It has seven modules:

- `Text`: the QString / QFileInfo / QByteArray helpers the tool relies on.
  These are last index, file name, complete base name, directory, trimming, split with empty
  parts skipped, and join.
- `Scanner`: the two regular expressions as deterministic matchers.
  It has a generic model of the `indexIn` search and of the `do`/`while` loop that visits every
  match of a file in order.
- `Disk`: the file system as a map from path to contents and modification time.
  A moc run is an outcome the environment chooses for each argument list: it did not start,
  it crashed, or it exited with a code.
- `Classification`: the classification pass as pure functions over the pair of tables
  (`includedMocs`, the claimed mocs, and `notIncludedMocs`, the unclaimed ones).
  The lemmas state what the pass keeps and decides.
- `Flags`: the `-D` definitions of `lazyInitMocDefinitions` and the `-I` include paths of
  `lazyInit`, with the project-first reordering.
- `Aggregator`: the aggregator text, reading the recorded definitions back from it, and the
  two staleness tests.
- `AutoMocTool`: the `AutoMoc` object as a class whose fields change step by step.
  These are the flag lists, the once-flags, `failed`, `automocCppChanged`, `generateAll` and
  `doTouch`, plus the file system and a ghost log of every moc invocation.
  The classification methods compute the `Classification` functions, the flag methods the
  `Flags` functions, and the two moc loops follow `Replay`, the sequence of `generateMoc`
  decisions and moc outcomes. `Run` models `run()` from the staleness test to the final write.

Two behaviours of `kde4automoc.cpp` worth noting:

- **Unclaimed moc order.** The unclaimed mocs are visited, and their include lines written, in
  the iteration order of a hash (chosen by `:|` in `VisitUnclaimed`), not sorted by key.
  `Run` returns that order and states the text in terms of it.
- **Header probe of a source without moc includes.** The probe stops at the first header that
  exists and is not yet a key of either table. An existing header that already is a key is
  skipped and the next extension is tried (`ProbeExaminesFirstFreshOnly`).

## Model

| member | source | states |
|---|---|---|
| Text.LastIndexOf | kde4automoc.cpp:436 | the result is -1 or a position holding the character, with no occurrence after it |
| Text.FileName | kde4automoc.cpp:369 | the file name is the suffix of the path after its last '/': it holds no '/', and a '/' precedes it whenever it is shorter than the path |
| Text.CompleteBaseName | kde4automoc.cpp:369 | the complete base name is the prefix of the file name before its last '.', or the whole file name when it holds no '.' |
| Text.SourceDir | kde4automoc.cpp:363-364 | the path is exactly the directory followed by the file name, and the directory is empty or ends with '/' |
| Text.BaseNameHasNoSlash | kde4automoc.cpp:479 | the complete base name holds no '/', so the generated moc names are bare file names |
| Text.IncludeDir | kde4automoc.cpp:436 | QFileInfo::path() of an include name: "." without a '/', "/" when the only '/' leads, otherwise the text before the last '/', so that the name is that directory, '/' and its file name |
| Text.Trimmed | kde4automoc.cpp:274 | trimming leaves no whitespace at either end and never lengthens the line |
| Text.TrimmedIsSlice | kde4automoc.cpp:274 | the trimmed line is one slice of the line, and every character cut off on either side is whitespace |
| Text.Split | kde4automoc.cpp:274 | split with empty parts skipped yields only non-empty fields free of the separator (what the asserts at lines 152, 158 and 185 rely on) |
| Text.Join | kde4automoc.cpp:498 | QStringList::join: the parts with the separator between them; JoinEnds and SplitJoin state what it gives |
| Text.JoinEnds | kde4automoc.cpp:498 | a join starts with the first part and ends with the last |
| Text.SplitJoin | kde4automoc.cpp:274 | splitting the join of non-empty, separator-free fields gives back exactly those fields |
| Text.TrimmedKeepsOut | kde4automoc.cpp:145 | trimming a line adds no character, so a manifest line stays free of newlines |
| Text.SplitKeepsOut | kde4automoc.cpp:146 | every field of a split is free of any character absent from the line |
| Scanner.NameEnd | kde4automoc.cpp:298 | the capture `[^ ">]` extends exactly to the first space, quote or '>' |
| Scanner.MatchAt | kde4automoc.cpp:298 | a match of mocIncludeRegExp starts at a newline and captures a moc name (`moc_X.cpp` after an optional directory, or `X.moc`) |
| Scanner.BeforeHash | kde4automoc.cpp:298 | whatever the directive matcher captures after the newline is a moc name |
| Scanner.AfterHash | kde4automoc.cpp:298 | what the matcher captures after `#` and optional spaces is a moc name |
| Scanner.AfterInclude | kde4automoc.cpp:298 | what the matcher captures after `include` and at least one space is a moc name |
| Scanner.Capture | kde4automoc.cpp:298 | the capture followed by `"` or `>` is accepted only when it is a moc name |
| Scanner.MocNameLength | kde4automoc.cpp:468-469 | a captured name is at least five characters, so the resumed search moves forward |
| Scanner.DirectiveLineSplits | kde4automoc.cpp:298 | a directive followed by a rest is its text followed by that rest |
| Scanner.DirectiveLineIsMatched | kde4automoc.cpp:298 | after its newline, every well-formed directive line is accepted with its name as the capture |
| Scanner.DirectiveIsMatched | kde4automoc.cpp:298 | wherever the text of a well-formed directive (`\n`, spaces, `#`, spaces, `include`, at least one space, `"` or `<`, a moc name of `[^ ">]`, `"` or `>`) occurs, MatchAt accepts it there with its name as the capture |
| Scanner.BeforeHashParts | kde4automoc.cpp:298 | an accepted line is spaces, `#`, and a rest the next stage accepts with the same capture |
| Scanner.AfterHashParts | kde4automoc.cpp:298 | an accepted rest after `#` is spaces, `include`, and a rest the next stage accepts with the same capture |
| Scanner.AfterIncludeParts | kde4automoc.cpp:298 | an accepted rest after `include` is spaces (at least one), an opening `"` or `<`, and the capture |
| Scanner.CaptureParts | kde4automoc.cpp:298 | an accepted capture is a run of `[^ ">]` closed by `"` or `>` |
| Scanner.MatchParts | kde4automoc.cpp:298 | every match is a well-formed directive, followed by the rest of the file, whose name is the capture |
| Scanner.MatchIsDirective | kde4automoc.cpp:298 | conversely to DirectiveIsMatched, every match is the text of a well-formed directive at the match position, whose name is the capture |
| Scanner.MatchAtCapturesNonEmpty | kde4automoc.cpp:468-469 | no capture of mocIncludeRegExp is empty |
| Scanner.IndexIn | kde4automoc.cpp:365 | a search result is a match of the pattern at an offset at or after the start of the search |
| Scanner.IndexInIsLeftmost | kde4automoc.cpp:365 | the search finds the leftmost match; when it finds nothing, no position at or after the start matches |
| Scanner.VisitsAfter | kde4automoc.cpp:401-470 | the do/while loop once a search has found a match: that match, then the visits of the search resumed after its capture; VisitsFirst to VisitsEnd state it |
| Scanner.Visits | kde4automoc.cpp:365-470 | the visits of the loop whose first search starts at a position: VisitsAfter of that search |
| Scanner.VisitsFirst | kde4automoc.cpp:365-366 | the loop visits nothing exactly when the first search fails, and otherwise starts with the first search's match |
| Scanner.VisitsCons | kde4automoc.cpp:401-470 | after the first match, the loop continues with the visits from that match's offset plus its capture length, which lies further on |
| Scanner.VisitsMatch | kde4automoc.cpp:401-470 | every visited match is a real match of the pattern in the file |
| Scanner.VisitsNext | kde4automoc.cpp:468-469 | each later visit is the leftmost match at or after the previous offset plus the previous capture's length |
| Scanner.VisitsEnd | kde4automoc.cpp:468-470 | the loop stops exactly when the search after the last visit finds nothing |
| Scanner.FindMocInclude | kde4automoc.cpp:365 | `mocIncludeRegExp.indexIn(t, from)` returns a line-anchored match at or after from |
| Scanner.MatchesAfter | kde4automoc.cpp:401-470 | the moc includes still to visit once the search has found one; MatchesAfterStep and MocIncludeAnchored state them |
| Scanner.MatchesAfterStep | kde4automoc.cpp:468-469 | the remaining moc includes are the current one, then those after the resumed search |
| Scanner.MocIncludeAnchored | kde4automoc.cpp:298 | every visited include starts at a newline, matches there, and captures a moc name; a directive on the first line is never found |
| Scanner.QObjectMarker | kde4automoc.cpp:299 | `\s*Q_OBJECT\b` at the start of a text; QObjectLine and QObjectMarkerParts characterise it |
| Scanner.QObjectWord | kde4automoc.cpp:299 | `Q_OBJECT` followed by the end of the text or a non-word character is a marker |
| Scanner.QObjectLine | kde4automoc.cpp:299 | any run of spaces, then `Q_OBJECT`, then the end or a non-word character, is a marker |
| Scanner.QObjectMarkerParts | kde4automoc.cpp:299 | conversely every marker is spaces, `Q_OBJECT`, and the end or a non-word character |
| Scanner.FindQObjectIsSearch | kde4automoc.cpp:299 | `qObjectRegExp.indexIn(t) >= 0` holds exactly when `\n`, optional spaces and a whole-word `Q_OBJECT` occur at some position |
| Scanner.HasQObject | kde4automoc.cpp:378 | `qObjectRegExp.indexIn(contents) >= 0`, the search of FindQObjectIsSearch from the start |
| Disk.Read | kde4automoc.cpp:355-357 | reading a missing file yields the empty contents |
| Disk.NotNewer | kde4automoc.cpp:577 | QDateTime's `<=` with an invalid date below every valid one; RegenerationRule spells out what it decides |
| Disk.AfterRun | kde4automoc.cpp:606-621 | a clean moc run writes its output with the current time; a started run that failed removes the moc file; a run that did not start changes nothing; no other file changes |
| Disk.AnyFailureSnoc | kde4automoc.cpp:613-620 | the failure flag after one more attempt is the old flag or the new attempt's failure |
| Classification.Claim | kde4automoc.cpp:428-429 | `includedMocs.insert` then `notIncludedMocs.remove`: the key is claimed with the moc name and no longer unclaimed, every other entry of both tables is unchanged |
| Classification.AddUnclaimed | kde4automoc.cpp:380 | `notIncludedMocs.insert`: the key is unclaimed with the moc name, the claimed table is unchanged and every other unclaimed entry too |
| Classification.CategoryOf | kde4automoc.cpp:351-353 | a path is a compilable source exactly for the five source suffixes, and a header exactly for the four header suffixes when it is not a source |
| Classification.FirstExisting | kde4automoc.cpp:424-432 | the header search returns the first extension whose file exists (every earlier one is missing), or the end of the list |
| Classification.FirstFresh | kde4automoc.cpp:370-373 | the probe stops at the first extension whose header exists and is not yet a key of either table |
| Classification.Probe | kde4automoc.cpp:370-384 | one probe never claims and forgets no key, and every entry it adds is an existing stem + extension that was not a key and holds Q_OBJECT; ProbeExaminesFirstFreshOnly states which extension |
| Classification.NoIncludeStep | kde4automoc.cpp:366-399 | a source without moc includes claims nothing and forgets no key |
| Classification.ClaimForMatch | kde4automoc.cpp:402-466 | one moc include aborts only for its own source and name, and only when it must be resolved through a header; ClaimForMatchAborts and ClaimForMatchClaims give both directions |
| Classification.ClaimAll | kde4automoc.cpp:401-470 | the moc includes of a source in order; an abort names the source and one of its includes |
| Classification.ClassifySource | kde4automoc.cpp:355-471 | a compilable source aborts only with its own path and one of the moc includes of its text |
| Classification.ClassifyHeader | kde4automoc.cpp:472-481 | a listed header is a key afterwards, nothing is claimed and no key is lost |
| Classification.ClassifyFile | kde4automoc.cpp:348-486 | only a compilable source can abort, and then with its own path |
| Classification.Classify | kde4automoc.cpp:348-487 | the pass aborts only with a compilable source from the source list |
| Classification.GeneratedNames | kde4automoc.cpp:374 | `moc_<base>.cpp` and `moc_<base>_p.cpp` are bare `moc_*.cpp` names |
| Classification.ProbeKeepsShape | kde4automoc.cpp:370-399 | a probe keeps both tables disjoint and well formed, never forgets a key, and never claims |
| Classification.NoIncludeStepAddsMarkedHeaders | kde4automoc.cpp:366-399 | a source without moc includes claims nothing and forgets no key; every entry it adds is `<dir>/<base><ext>` or `<dir>/<base>_p<ext>` for an extension in the list, a header that exists, was not a key and holds Q_OBJECT |
| Classification.ProbeExaminesFirstFreshOnly | kde4automoc.cpp:370-384 | only the first existing non-key header is examined; when it lacks Q_OBJECT nothing is added, even if a later extension would qualify |
| Classification.FirstExistingNone | kde4automoc.cpp:424-433 | the header search finds nothing exactly when no stem + extension exists |
| Classification.ClaimForMatchAborts | kde4automoc.cpp:416-462 | an include aborts the run exactly when it needs a header and none exists next to the source nor (for a name with '/') in the include's directory; the abort names the source and the include |
| Classification.ClaimForMatchClaims | kde4automoc.cpp:405-466 | otherwise exactly one file is claimed: the source itself for a `.moc` include in a Q_OBJECT source; else the header for the first extension that exists next to the source; else, for a name with '/', the first that exists in the include's directory; with moc_ stripped from the base name |
| Classification.ClaimForMatchKeepsShape | kde4automoc.cpp:426-429 | a claim inserts into includedMocs and removes the key from notIncludedMocs, so the tables stay disjoint |
| Classification.ClaimAllKeepsShape | kde4automoc.cpp:401-470 | handling every moc include of a source in order keeps the tables disjoint and well formed |
| Classification.MocIncludeNames | kde4automoc.cpp:402 | every name the scan captures is a moc name |
| Classification.ClassifySourceKeepsShape | kde4automoc.cpp:355-471 | a compilable source (empty, without includes, or with includes) keeps the tables disjoint and never forgets a key |
| Classification.ClassifyHeaderKeepsShape | kde4automoc.cpp:472-481 | a listed header keeps the tables disjoint: it is only added when it is in neither table |
| Classification.ClassifyFileKeepsShape | kde4automoc.cpp:348-486 | one manifest entry of any kind keeps the tables disjoint and never forgets a key |
| Classification.ClassifyKeepsShape | kde4automoc.cpp:348-487 | after the whole pass no path is both claimed and unclaimed, and no earlier key is lost |
| Classification.HeaderEntry | kde4automoc.cpp:472-481 | a listed header in neither table is added unclaimed as `moc_<complete base name>.cpp` without looking for Q_OBJECT; one already a key is left as it is |
| Classification.ListedHeadersAreKeys | kde4automoc.cpp:348-487 | once the pass succeeds, every header listed in the manifest is a key of one of the tables |
| Flags.Prefixed | kde4automoc.cpp:151-154 | one flag per value, in order, each the prefix followed by that value |
| Flags.Keep | kde4automoc.cpp:157-162 | only the words that start with the prefix are kept |
| Flags.Drop | kde4automoc.cpp:213-219 | the flags left after removing those with the prefix start without it |
| Flags.DefinitionFlags | kde4automoc.cpp:150-163 | every definition flag starts with "-D" |
| Flags.DefinitionFlagsShape | kde4automoc.cpp:150-163 | every definition flag starts with "-D" and holds no newline; when there are compile definitions they are all kept, prefixed, in order |
| Flags.IncludeFlags | kde4automoc.cpp:179-228 | the include flags lazyInit builds; IncludeFlagsArePrefixedPaths states them |
| Flags.IncludeFlagsArePrefixedPaths | kde4automoc.cpp:179-228 | the include flags are "-I" before each ';'-separated path, in that order unless the manifest says ON, and as a multiset in any case |
| Flags.ProjectFirst | kde4automoc.cpp:212-228 | the project-first reordering; ProjectFirstIsPermutation, ProjectFirstIsGrouped and ProjectFirstIsStablePartition state it |
| Flags.JoinHasNoNewline | kde4automoc.cpp:498-499 | the joined definitions are a single line |
| Flags.KeepDropSplit | kde4automoc.cpp:213-219 | one removal pass splits the flags into taken and remaining with nothing lost or duplicated |
| Flags.ProjectFirstIsPermutation | kde4automoc.cpp:212-228 | the reordered include flags are a permutation of the old ones |
| Flags.ProjectFirstIsGrouped | kde4automoc.cpp:212-228 | the build-directory flags come first, then the source-directory flags, then the rest |
| Flags.Rank | kde4automoc.cpp:215-222 | every include flag falls in one of three groups; a flag with both prefixes goes with the build directory, which is taken first |
| Flags.BuildGroupZero | kde4automoc.cpp:214-219 | the first pass takes exactly the build-directory group, in order |
| Flags.BuildGroupOne | kde4automoc.cpp:221-226 | the second pass takes exactly the source-directory group, in order |
| Flags.BuildGroupTwo | kde4automoc.cpp:227 | what remains is exactly the third group, in order |
| Flags.ProjectFirstIsStablePartition | kde4automoc.cpp:212-228 | each of the three groups keeps its old relative order |
| Aggregator.AggregatorText | kde4automoc.cpp:496-512 | the header recording the definitions, then the placeholder or one include line per unclaimed moc; RecordedDefinitionsRoundTrip states what a later run reads from it |
| Aggregator.TakeLine | kde4automoc.cpp:279-281 | readLine returns a prefix of the text that is the whole text or ends with its first newline |
| Aggregator.SkipLine | kde4automoc.cpp:279-281 | the first line followed by what remains is the text |
| Aggregator.RecordedDefinitions | kde4automoc.cpp:279-284 | the recorded definitions are a single line |
| Aggregator.GenerateAllFor | kde4automoc.cpp:276-288 | the generateAll test; GenerateAllExactlyWhenChanged states it on a written file |
| Aggregator.NeedsRegeneration | kde4automoc.cpp:577 | the per-moc test of generateMoc; RegenerationRule states it |
| Aggregator.IncludeLinesAppend | kde4automoc.cpp:507-512 | the include lines are one line per moc name, in visiting order |
| Aggregator.LinesOf | kde4automoc.cpp:279-281 | readLine returns a newline-free first line with its newline and leaves the rest |
| Aggregator.RecordedDefinitionsRoundTrip | kde4automoc.cpp:279-284 | the definitions line written into the header is exactly what the next run reads back |
| Aggregator.GenerateAllExactlyWhenChanged | kde4automoc.cpp:276-288 | reading back a file written with definitions d, generateAll holds exactly when d differs from the current joined definitions |
| Aggregator.RegenerationRule | kde4automoc.cpp:577 | a missing moc is always regenerated; one whose source is missing only under generateAll; otherwise when it is not strictly newer than its source |
| AutoMocTool.MocArguments | kde4automoc.cpp:597-601 | the include flags, the definitions, `-o`, the moc path and the source, as RunMoc passes them |
| AutoMocTool.Touch | kde4automoc.cpp:549-570 | utime on an existing file; TouchSetsTime states it |
| AutoMocTool.TouchSetsTime | kde4automoc.cpp:549-570 | touching creates and removes no file, gives the touched file the new time with its contents kept, and changes no other file |
| AutoMocTool.ValuesOf | kde4automoc.cpp:507-511 | the moc names are those of the keys, in the visiting order |
| AutoMocTool.EnumeratingDone | kde4automoc.cpp:505-512 | a loop that took every key visited each key exactly once |
| AutoMocTool.GenerateOne | kde4automoc.cpp:572-624 | one generateMoc call on a file system: moc runs into the build directory plus the moc name exactly when NeedsRegeneration holds, and the file system becomes AfterRun of its outcome |
| AutoMocTool.Replay | kde4automoc.cpp:489-512 | generateMoc for each visited key in turn, each deciding on the file system the previous calls left |
| AutoMocTool.AttemptOf | kde4automoc.cpp:595-601 | the attempt of one moc run: the source, the moc path and the outcome for MocArguments |
| AutoMocTool.ReplayAttempts | kde4automoc.cpp:489-512 | each attempt is for a visited key, into the build directory plus its moc name, with the manifest's arguments, and there is at most one per visit |
| AutoMocTool.ReplayUnderGenerateAll | kde4automoc.cpp:577 | under generateAll every visit makes exactly one attempt, in visiting order |
| AutoMocTool.ReplayOncePerKey | kde4automoc.cpp:489-512 | a loop that visits each key once runs moc at most once per key |
| AutoMocTool.ReplayKeepsOtherFiles | kde4automoc.cpp:606-621 | no file other than the visited keys' moc files is created, removed or changed |
| AutoMocTool.ReplayDecidesOnStartingFiles | kde4automoc.cpp:577 | without generateAll, a visit whose moc file and source no earlier visit writes runs moc exactly when, on the file system the loop started from, its moc is missing or not newer than its source |
| AutoMocTool.ReplaysStep | kde4automoc.cpp:493 | one more generateMoc call extends the replayed log, file system and definitions flag by one visit |
| AutoMocTool.MocsRanInSequence | kde4automoc.cpp:489-512 | the claimed loop followed by the unclaimed loop, started on the file system the first left, is the run of both tables |
| AutoMocTool.StartedSinceSnoc | kde4automoc.cpp:508-509 | a process has started since a point when one had before or the new attempt started |
| AutoMocTool.WrittenOutputIsStable | kde4automoc.cpp:276-288 | an aggregator that records the current definitions does not make the next run with the same manifest regenerate everything |
| AutoMocTool.JoinOfFlagsIsNotEmpty | kde4automoc.cpp:153 | a non-empty list of "-D" flags joins to a non-empty line |
| AutoMocTool.UnrecordedDefinitionsForceRegeneration | kde4automoc.cpp:498-499 | a file whose header recorded no definitions makes the next run regenerate everything when the manifest has definitions |
| AutoMocTool.FooManifestRegeneratesEverything | kde4automoc.cpp:498-499 | with compile definition FOO the flags are `-DFOO`, and the file written with an empty definitions line forces generateAll on the next run |
| AutoMocTool.AutoMoc.constructor | kde4automoc.cpp:126-128 | a fresh object has failed, automocCppChanged, generateAll and doTouch false, empty flag lists, no once-flag set, and a build directory ending in '/' |
| AutoMocTool.AutoMoc.LazyInitMocDefinitions | kde4automoc.cpp:136-164 | after the call the definitions are filled once and equal DefinitionFlags: compile definitions prefixed with "-D", or else the "-D" words of the definitions line |
| AutoMocTool.AutoMoc.TakeWithPrefix | kde4automoc.cpp:213-219 | the iterator pass returns the flags with the prefix, in order, and leaves the others, in order |
| AutoMocTool.AutoMoc.AddIncludePaths | kde4automoc.cpp:179-186 | the include flags are "-I" before each ';'-separated path, in order |
| AutoMocTool.AutoMoc.ReorderProjectFirst | kde4automoc.cpp:212-228 | the include flags become ProjectFirst of the old ones (a stable, grouped permutation) |
| AutoMocTool.AutoMoc.LazyInit | kde4automoc.cpp:166-230 | afterwards definitions and include flags equal the manifest's, reordered when it says ON, and doTouch is the --touch request |
| AutoMocTool.AutoMoc.ComputeGenerateAll | kde4automoc.cpp:276-288 | generateAll holds exactly when there is no previous output or its recorded definitions differ from the current ones; the definitions are read only when there is an output |
| AutoMocTool.AutoMoc.FindHeader | kde4automoc.cpp:424-432 | the loop returns the first extension whose header exists |
| AutoMocTool.AutoMoc.ProbeHeader | kde4automoc.cpp:370-384 | the loop with its break computes the probe: the first existing non-key header is added unclaimed when it holds Q_OBJECT |
| AutoMocTool.AutoMoc.ClaimMocInclude | kde4automoc.cpp:402-466 | one moc include is claimed, or the run aborts, as the claim rule says |
| AutoMocTool.AutoMoc.ScanSource | kde4automoc.cpp:355-471 | a compilable source is classified as the pass says: skipped when empty, probed without includes, otherwise every include claimed |
| AutoMocTool.AutoMoc.ClaimMocIncludes | kde4automoc.cpp:401-470 | the do/while loop claims every visited include in file order and stops at the first fatal one |
| AutoMocTool.AutoMoc.ClassifySources | kde4automoc.cpp:348-487 | the loop over the source list computes the classification pass, stopping at the first fatal include |
| AutoMocTool.AutoMoc.RunMoc | kde4automoc.cpp:595-621 | moc runs with include flags, definitions, -o, moc path and source; the attempt is logged, the file system changes as the outcome says, any failure sets failed |
| AutoMocTool.AutoMoc.GenerateMoc | kde4automoc.cpp:572-624 | moc runs exactly when generateAll holds or the moc is not newer than its source, after initializing the flags once; it reports whether a process started; otherwise nothing changes; the flags are initialized afterwards exactly when they were before or a process was attempted |
| AutoMocTool.AutoMoc.GenerateStep | kde4automoc.cpp:493 | one generateMoc call extends the replay by its key: the log, the file system and the definitions flag are those Replay gives for one more visit, and started records whether a process started; the flags are initialized exactly when they were before or a moc was attempted, and the log only grows |
| AutoMocTool.AutoMoc.GenerateClaimed | kde4automoc.cpp:489-494 | every claimed file is visited once, and the log, the file system and the definitions flag afterwards are those Replay gives for that order from the state before the loop; the flags are initialized exactly when they were before or some moc was attempted |
| AutoMocTool.AutoMoc.VisitUnclaimed | kde4automoc.cpp:500-512 | every unclaimed file is visited once, the log, file system and definitions flag are those Replay gives for the returned order, and changed holds exactly when some process started in the loop; the flags are initialized exactly when they were before or some moc was attempted |
| AutoMocTool.AutoMoc.AggregatorHeaderAsWritten | kde4automoc.cpp:498-499 | the header as written records the definitions only if they were read; otherwise its definitions line is empty |
| AutoMocTool.AutoMoc.RecordingHeader | kde4automoc.cpp:498-499 | the corrected header reads the definitions first, so it always records the current definitions |
| AutoMocTool.AutoMoc.Finish | kde4automoc.cpp:514-546 | a failed moc leaves the disk and fails; identical text with no changed moc leaves the disk and succeeds; otherwise the text is written and the manifest touched under --touch, failing only when it is missing |
| AutoMocTool.AutoMoc.RunMocs | kde4automoc.cpp:489-512 | both loops as Replay gives them (MocsRan): claimed files, then unclaimed files from the file system the first loop left, each once; automocCppChanged holds exactly when a process for an unclaimed file started; the text records the definitions and lists the unclaimed mocs in visiting order, and asWritten is the text with the header as written; the flags are initialized exactly when they were before or some moc was attempted |
| AutoMocTool.AutoMoc.GenerateAndWrite | kde4automoc.cpp:489-546 | the moc loops as RunMocs states, then the write policy of Finish on the file system the mocs left; the verdict is a failed run exactly when some moc failed, and a written aggregator records the current definitions; the manifest is to be touched exactly when `--touch` was given and the flags were initialized before or some moc was attempted |
| AutoMocTool.AutoMoc.Run | kde4automoc.cpp:276-546 | generateAll from the old output; a fatal include aborts with nothing run or written; otherwise the mocs replay from the old file system with the definitions read exactly when an output existed, then the write policy, and the verdict is a failed run exactly when some moc failed; the manifest is to be touched (and a missing one fails the run) only when `--touch` was given and some moc was attempted, since only generateMoc runs lazyInit |

## Left out

- Argument parsing, usage and version output and the exits they take are left out. The output path, build directory, manifest, header extensions and the `--touch` request are constructor parameters.
- The manifest's label lines and the fatal exit on a mislabelled manifest (`dotFilesCheck`) are left out. The manifest is given as its data lines, each without its newline. The project-before value is compared as the line "ON".
- The source directory argument is left out: the classification pass does not use it.
- `-F` framework paths derived from `.framework/Headers` include paths are not modelled. Deriving them goes through Qt's directory handling.
- The Windows `-DWIN32` argument is not modelled.
- The header extension list is a parameter. `UnixHeaderExtensions` gives the non-Windows, non-macOS list; the macOS case-sensitivity probe is not modelled.
- The commented-out dirty check is dead code.
- Console output, verbose messages, the `cmake -E cmake_echo_color` echo and debug output are left out. Creating the moc output directory (`mkpath`) is left out.
- moc is an outcome the environment chooses for each argument list (`MocProcess`). Process launching, waiting and exit statuses beyond started, crashed and exit code are not modelled.
- The clock is the parameter `now` for written files and `touchTime` for the touched manifest. The one-second sleep before `utime` and the `utime` error text are left out. A missing manifest is the only touch failure modelled.
- Text.SourceDir: for a source directly in the root directory (`/a.cpp`) Qt's `absolutePath()` is `/`, so the header candidates the source builds start with `//`, whereas SourceDir gives `/`. Both name the same file on POSIX, so the model's lookups agree, but the key of such a header differs by that doubled slash.
- A fatal moc include is the `Aborted` verdict with the file system unchanged, instead of a process exit.
- Files are read as characters. UTF-8 decoding, text-mode line-ending translation and Qt's path normalisation in `absolutePath` are not modelled. A source path is taken as already absolute.
- `\s` is modelled for the Latin-1 range only (ASCII whitespace, U+0085 and U+00A0).
- Hash iteration order is chosen nondeterministically (`:|`). The generation order of claimed mocs is not returned; the unclaimed mocs' visiting order is returned.
- The include lines are built from the visiting order after the unclaimed loop, not streamed during it. The text is the same.
- Writing the aggregator file is assumed to succeed; a failed open or write is not modelled.
- AutoMocTool.AutoMoc.RunMocs: `text` carries the corrected header (`RecordingHeader`), which reads the definitions before the header is written; the text with the header as the source writes it is returned as `asWritten` (see Findings).
- AutoMocTool.AutoMoc.GenerateAndWrite: writes `text`, with the corrected header, rather than `asWritten`, the text as the source builds it (see Findings).
- AutoMocTool.AutoMoc.Run: uses the corrected header (`RecordingHeader`), which reads the definitions before writing; the as-written text is returned as `asWritten` (see Findings).
- Scanner.IsWordChar: the word characters of `\b` are the ASCII letters, digits and '_', whereas Qt counts every Unicode letter, digit and mark; a `Q_OBJECT` directly followed by a non-ASCII letter is a marker here but not for Qt.

## Findings

| source | as written | input that shows it | evidently intended | confidence | as-written member | corrected member |
|---|---|---|---|---|---|---|
| kde4automoc.cpp:498-499 | the header records `mocDefinitions` as they stand; `lazyInitMocDefinitions` has run only if an earlier output existed or a claimed moc was regenerated, so otherwise an empty line is recorded (the `asWritten` text that `Run` returns) | no earlier `_automoc.cpp`, compile definitions `FOO`, a source `a.cpp` that includes no moc and a header `a.h` holding `Q_OBJECT` (so `includedMocs` is empty and `moc_a.cpp` is unclaimed; its moc runs after the header is written): the header records an empty line, and the next run with nothing changed compares it with `-DFOO`, sets generateAll and regenerates every moc | the header records the current definitions, so that an unchanged rerun regenerates nothing | not executed | AutoMocTool.FooManifestRegeneratesEverything | AutoMocTool.AutoMoc.RecordingHeader |
