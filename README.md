# which — a verified model of the command locator

`which` takes one or more command names and searches for matching
executables in two phases:

- **Flat phase.** It probes every directory of the search path for each
  command. A command without an extension is tried with every recognised
  extension appended. The recognised extensions are `.com`, `.exe`, `.bat`
  and `.cmd`, plus the lower-cased pieces of `PATHEXT`.
- **Walk phase.** When `-a` is given, or fewer commands are recorded than
  were given (a repeated command always causes this), it also walks the extra search directories recursively.
  The walk uses a hand-written explicit-stack traversal. Its visitor matches
  every file against every command.

Results go into a map from each command to the set of distinct paths matched
for it. Without `-a`, a command that already has a path is not searched for
again. The visitor aborts the walk with `errFound` once the count test says
every command is accounted for.

The model has six modules:

- `Paths`: the parts of `path/filepath` and `strings` the locator uses (`Ext`, `Base`, `Join`, ASCII `ToLower`, `Split`).
- `FileSystem`: an abstract finite file system. It has a set of paths that are files, and a directory tree at each recursive search root. A directory can be unreadable.
- `Walk`: the explicit-stack walk as an imperative method over a stack of frames, for any state-passing visitor. It is proved equal to a recursive reference traversal, and the traversal's properties are proved on that reference.
- `Results`: the result map as a class updated in place, with its `add` and `hasKey`.
- `Match`: the extension set, the flat-phase probes and the walk-phase match test.
- `Which`: the flat phase as nested loops updating the result map, the walk visitor, the phase gating and the whole search.

## Model

| member | source | states |
|---|---|---|
| Paths.Lower | main.go:66 | lower-casing keeps the length and lower-cases each ASCII letter in place |
| Paths.ExtLower | main.go:107 | the extension of a lower-cased path is the lower-cased extension |
| Paths.Ext | main.go:76 | the extension is a suffix of the path; it is either a dot followed by characters that are neither dots nor separators, or empty, and it is empty only when no dot follows the last separator |
| Paths.ExtOfAppended | main.go:78 | appending a well-formed extension to a name makes it the name's extension |
| Paths.BaseOfJoin | main.go:106 | the base name of a directory joined with a non-empty, separator-free name is that name |
| Paths.ExtOfJoin | main.go:217 | the extension of a directory joined with a non-empty, separator-free name is the extension of that name |
| Paths.Base | main.go:106 | the base name of "" is "."; of a path made only of separators it is "/"; otherwise it is the last element once trailing separators are removed: a non-empty, separator-free suffix of the trimmed path preceded by a separator or by its start |
| Paths.Split | main.go:65 | splitting gives at least one piece, none containing the separator (so the empty string gives one empty piece) |
| Paths.JoinSplit | main.go:65 | joining the pieces of a split with the separator gives back the input |
| Paths.SplitJoin | main.go:65 | splitting a join of separator-free pieces gives back the pieces |
| Paths.Join | main.go:73 | defines `filepath.Join` of a directory and a name: the name alone after an empty directory, the directory alone before an empty name, and otherwise the two with a separator between them (no cleaning) |
| FileSystem.IsFile | main.go:164-167 | defines `isFile`: the path is one for which stat succeeds and reports a non-directory |
| FileSystem.Lstat | main.go:197-198 | defines what `os.Lstat` of a walk's root reports: failure for a path with no tree, a directory, or a non-directory |
| FileSystem.Listing | main.go:179-189 | defines `readdir` with its error dropped as main.go:214 does: a readable directory's entries, and none for an unreadable directory or a file |
| Walk.FilesRun | main.go:216-224 | defines the visits of a listing's non-directory entries in listing order: SkipDir from the visitor is ignored and any other error ends the walk |
| Walk.DirRun | main.go:205-224 | defines a popped directory: the visitor is called on it; an error ends the walk, SkipDir skips its contents, and otherwise its files are visited and its subdirectories pushed |
| Walk.FramesRun | main.go:204-225 | defines the walk of the pending stack, always continuing from its top |
| Walk.WalkRun | main.go:191-227 | defines `walk`: a missing or non-directory root is handed to the visitor once and its answer returned; otherwise the stack seeded with the root is walked, and the result is nil unless an error ended it |
| Walk.Walk | main.go:191-228 | the explicit-stack loop makes exactly the visits, ends in exactly the visitor state and returns exactly the signal of the recursive reference traversal `WalkRun` |
| Walk.FramesConcat | main.go:204-205 | the stack is last in, first out: walking `a + b` walks all of `b` (the top) before any of `a` |
| Walk.RootNotDirectory | main.go:197-200 | a missing root, or one that is not a directory, is passed to the visitor exactly once with its stat result, and the walk returns the visitor's answer |
| Walk.WalkHalts | main.go:204-227 | when the root is a directory: after a visit that returns an error other than SkipDir there is no further visit, and the walk returns that error; otherwise it returns nil |
| Walk.SkippedOrUnreadable | main.go:205-214 | a directory popped from the top of the stack whose visit returns SkipDir, or which is unreadable and whose visit returns nil, contributes only its own visit, after which the walk goes on with the rest of the stack |
| Walk.SkipDirOnFileIgnored | main.go:221 | SkipDir returned for a file is ignored and the following entries are still visited |
| Walk.WalkCovers | main.go:197-225 | when the visitor never skips a directory and the walk is not ended by an error, the (path, stat result) pairs visited are exactly those reachable from the root through readable directories, each as often as it is reachable; a root that is not a directory is visited alone |
| Walk.WalkWithin | main.go:191-227 | whatever the visitor answers, the walk visits only pairs reachable from the root, none more often than it is reachable |
| Walk.VisitsCovered | main.go:207-221 | every call of the visitor is counted as a visit |
| Walk.CoveredByVisits | main.go:207-221 | every pair counted as visited comes from a call of the visitor |
| Walk.WalkComplete | main.go:202-227 | a visitor that never skips or fails visits exactly the pairs reachable from a directory root, each as often as it is reachable, and the walk returns nil |
| Walk.WalkPreserves | main.go:191-228 | any invariant of the visitor's state and the visits so far that every visit keeps holds at the end of the walk |
| Results.AddTo | main.go:146-157 | after adding, a pair is recorded exactly when it was recorded before or is the added pair, and the commands are the old ones plus the added one |
| Results.AddToRecorded | main.go:147-149 | adding a pair that is already recorded changes nothing |
| Results.AddToTwice | main.go:146-157 | adding the same pair twice has the effect of adding it once |
| Results.AddToWellFormed | main.go:154-155 | every recorded command keeps at least one path |
| Results.AddToSize | main.go:90 | the number of recorded commands grows by one exactly when the command was new |
| Results.ResultMap.constructor | main.go:142-144 | a new result map is empty |
| Results.ResultMap.Add | main.go:146-157 | `add` reports true exactly when the pair was not yet recorded and leaves the map as `AddTo` describes |
| Results.ResultMap.Replace | main.go:113 | the walk visitor's additions, applied to the map at once: the map becomes the given entries, which keep every recorded pair, so every command that had a path still has one |
| Results.ResultMap.HasKey | main.go:159-162 | `hasKey` holds exactly when some path is recorded for the command |
| Match.ExtensionSet | main.go:58-67 | the recognised extensions are exactly the four defaults and the lower-cased pieces of `PATHEXT` |
| Match.EmptyPathExtRecognisesBareNames | main.go:65-66 | an empty `PATHEXT` makes the empty extension recognised |
| Match.BareNameProbed | main.go:76-79 | with an empty `PATHEXT` a command without extension is also probed under its bare name |
| Match.ExtensionsAreLowerCase | main.go:58-67 | every recognised extension is in lower case |
| Match.Probes | main.go:73-85 | defines the paths the flat phase tests for a command in a directory: the joined path with each recognised extension appended when the command has no extension, the joined path alone otherwise |
| Match.WalkMatch | main.go:103-113 | defines the walk visitor's test of a file against a command: its lower-cased extension is recognised and its lower-cased base name equals the lower-cased command, with the file's extension appended when the command has none |
| Match.WalkMatchOfEntry | main.go:103-113 | for a file listed in a directory, the walk test depends only on the file's name, its extension and the command |
| Match.WalkMatchIgnoresCase | main.go:107-113 | the walk test gives the same answer for the lower-cased command and the lower-cased file name |
| Match.ExplicitExtensionNotExtended | main.go:103-113 | a command with an extension never matches a file whose name is the command with a further extension |
| Match.ExactNameNeedsRecognisedExtension | main.go:83 | a non-empty, separator-free command with an extension is probed only under its own name by the flat phase, and a file of exactly that name passes the walk test exactly when that extension is recognised |
| Match.UnrecognisedExtensionExcluded | main.go:107 | a file whose extension is not recognised never passes the walk test |
| Match.ProbeIsWalkMatch | main.go:76-79 | for a non-empty, separator-free command without extension, every probe of a recognised lower-case extension that is empty or a single dot-extension is a file name the walk test accepts for the same command |
| Match.MultiDotProbeNeverWalkMatches | main.go:106-113 | for a non-empty, separator-free command without extension, a name made of the command and two dot-extensions (such as `ls.tar.gz`) never passes the walk test, whatever extensions are recognised |
| Match.SeparatorCommandNeverWalkMatches | main.go:106-113 | a command containing a separator never passes the walk test for a file listed in a directory (a non-empty, separator-free name), whatever the recognised extensions |
| Which.SatisfiedMeansAllFound | main.go:118-123 | when only given commands are recorded, the count test passes exactly when `-a` is absent, no command is repeated and every command has been found |
| Which.DuplicatesNeverSatisfied | main.go:90 | a command given twice keeps the count test from passing: the walk phase always runs and the visitor never aborts |
| Which.Satisfied | main.go:118-123 | defines the visitor's stopping test: no `-a` and as many recorded commands as commands given, duplicates included |
| Which.WalkPhaseEntered | main.go:90 | defines the test that starts the walk phase: `-a`, or a number of recorded commands different from the number given |
| Which.TryCommand | main.go:102-117 | defines one command tried against a file: a command not yet recorded, or any command under `-a`, gains the file when it passes the match test |
| Which.ScanCommands | main.go:101-125 | defines the loop over the commands for one file, returning `errFound` as soon as the stopping test holds |
| Which.MatchStep | main.go:92-128 | defines the walk visitor: SkipDir for a failed stat, nil for a directory, and the loop over the commands for a file |
| Which.ScanShowAll | main.go:118-125 | with `-a` the loop over the commands never returns `errFound` |
| Which.TryCommandFacts | main.go:102-117 | trying one command against a file adds at most that file, only to a given command it matches, and a matching command ends up recorded (with this file under `-a`) |
| Which.ScanFacts | main.go:101-125 | the loop over the commands only adds the visited file, only for given commands it matches; it returns `errFound` exactly when the count test passes, and afterwards every matching command is recorded (with this file under `-a`) |
| Which.MatchStepFacts | main.go:92-128 | the visitor returns SkipDir for a stat failure and nil for a directory and changes nothing then; for a file it returns `errFound` exactly when the count test passes and nil otherwise |
| Which.ExtendsKeepsKeys | main.go:146-162 | nothing is removed from the map, so a command that has a path keeps having one |
| Which.MatchVisitorEntersDirectories | main.go:97-99 | the visitor never skips a directory it is handed |
| Which.ShowAllNeverStops | main.go:92-128 | with `-a` the visitor never skips a directory and never aborts the walk |
| Which.WalkInvPreserved | main.go:92-128 | every call of the visitor keeps the walk-phase invariant |
| Which.WalkFacts | main.go:92-128 | a walk with the visitor only adds matching paths of given commands; it aborts only with `errFound` after the count test passed, so never under `-a`; a walk not aborted visits every reachable path; every command matching a file it visits ends up recorded, with that file under `-a` |
| Which.WalkSound | main.go:92-128 | every pair a walk adds is a file reachable from the walked root that passes the match test for its command |
| Which.WalkFinds | main.go:92-128 | every given command matching a file reachable from the walked root ends up recorded, with that file under `-a` |
| Which.WalkAllFinds | main.go:91-129 | every given command matching a file reachable from any of the search directories ends up recorded, with that file under `-a` |
| Which.WalkAllSound | main.go:91-129 | every pair the walk phase adds is a file reachable from one of the search directories that passes the match test for its command |
| Which.WalkAllFacts | main.go:91-129 | the walk phase only adds matching paths of given commands; without `-a` it leaves recorded commands alone and gives new ones a single path |
| Which.WalkAll | main.go:91-129 | defines the walk phase: each search directory walked in order from the entries the previous walk left, whatever that walk returned |
| Which.SatisfiedIsFinal | main.go:91-129 | once the count test passes, the remaining walks change nothing |
| Which.ProbeOutcomeAdd | main.go:79 | adding a probe that is a file, for a command not yet recorded or under `-a`, keeps the probing outcome with that probe counted as a hit |
| Which.ProbeOutcomeStep | main.go:79 | one probe adds its path when it is a file and the command is not yet recorded or `-a` is given, and changes nothing else |
| Which.ProbeExtensions | main.go:77-82 | the loop over the recognised extensions, in any order, leaves the command as `ProbeOutcome` describes for the extension probes that are files |
| Which.ProbeCommand | main.go:73-86 | probing a directory for a command: with `-a` every hit is added; otherwise a recorded command is left alone and an unrecorded one gains exactly one hit when there is any; other commands are untouched |
| Which.FlatKeyRepeat | main.go:72-86 | probing the same directory again for the same command, as a repeated command does, changes nothing |
| Which.FlatPhase | main.go:71-88 | after the flat phase each command is in the state `FlatKey` gives for the directories in order |
| Which.FirstHitIsFirst | main.go:71-88 | `FirstHit` is the first directory with a hit, and no hit exists when it is none |
| Which.FlatFacts | main.go:71-88 | from an empty map the flat phase records only given commands and only probes that are files; a command is recorded exactly when it has a hit; with `-a` it records all hits, and without `-a` exactly one |
| Which.FlatSufficient | main.go:90 | without `-a` and with no command repeated, when the flat phase finds every command the walk phase does not run |
| Which.SearchSound | main.go:69-130 | after both phases, every recorded path is a flat-phase hit for its command, or a file reachable from a search directory that passes the match test for its command |
| Which.BareFileScenario | main.go:65-90 | a single extensionless command with the empty extension recognised and only the bare file present is recorded with exactly that path, and the walk phase does not run |
| Which.SearchFinds | main.go:69-130 | after both phases, every given command with a flat-phase hit or matching a file reachable from a search directory is recorded; under `-a` every such hit and file is recorded for it |
| Which.Locate | main.go:69-130 | the search runs the flat phase and, when the count test asks for it, the walk phase; every recorded path is a flat-phase hit, or a file reachable from a search directory that passes the walk test; only given commands are recorded; without `-a` each recorded command has exactly one path; and every command with a flat-phase hit or a matching reachable file is recorded, with all of them under `-a` |

## Left out

- Flag parsing, help and version output (main.go:27-45, 169-172): these are library glue. `Query` carries the commands and the `-a` flag directly, and a run with no command never reaches the search.
- Environment and process inputs (main.go:48-57, 65): `Locate` takes the flat directories, the recursive directories and the recognised extensions as parameters. These are free parameters: `Split` and `ExtensionSet` model how main.go:57-67 builds them from the environment, but no member ties the two together. They are not read from `PATH`, `PATHEXT` or `ProgramFiles`. The current directory from `filepath.Abs(filepath.Dir(os.Args[0]))` is not modelled; it is simply the first flat directory when there is one.
- Printing (main.go:80, 84, 114, 134-137): the boolean `Add` returns is what decides a report, but the model drops it. The not-found messages and the final dump of the map are output only.
- Real file-system calls (main.go:165-166, 180-188, 197):
  - `os.Stat`, `os.Lstat`, `os.Open` and `Readdir` are replaced by the abstract `FS`.
  - Symbolic links are not modelled, so `Lstat` and `Stat` agree.
  - A failed `Readdir` yields no entries, not the partial listing Go may return.
  - Nothing ties the set of files to the trees; the two are independent parameters.
- `filepath.Join` is modelled without its `Clean` step. `/` is the only separator, as on Unix, so Windows separators and volume names are not modelled.
- `strings.ToLower` is ASCII lower-casing only; Unicode case folding is not modelled.
- Order: the result map and the extension set are Go maps with unordered iteration (main.go:77, 140). The model keeps sets, and the extension loop picks the next extension arbitrarily.
- Which.FlatPhase: without `-a` it does not say which of the first directory's hits is recorded. This is because it depends on Go's unspecified map iteration order.
- The walk visitor is a function that receives and returns the result entries. `Locate` writes the walk's final entries back into the `ResultMap` through `ResultMap.Replace`. This has the same effect as the closure updating the shared map, because nothing else touches the map while a walk runs.
- Walk.Walk: its ghost list of visits is an output for the proofs and has no counterpart in the source.

Four behaviours of the source are easy to miss. The model follows the source in all of them:

- The result map keeps sets and no order.
- A `PATHEXT` piece holding more than one dot, such as `.TAR.GZ`, is recognised as a whole. The flat phase then probes `ls.tar.gz`, and the walk test always rejects it: it compares the base name `ls.tar.gz` with `ls` followed by that name's extension `.gz` (main.go:106-113), whatever extensions are recognised. The two phases disagree on such names in the source. `Match.MultiDotProbeNeverWalkMatches` states this, and `Match.ProbeIsWalkMatch` is stated only for empty and single dot-extensions.
- A command containing `/`, such as `bin/ls`, can be found by the flat phase, which probes `d/bin/ls.exe`. The walk test never accepts it: it compares the base name of a file, which holds no `/`, with the command and its extension (main.go:106-113). `Match.SeparatorCommandNeverWalkMatches` states this, and `Match.ProbeIsWalkMatch` is therefore stated only for non-empty, separator-free commands.
- In the walk phase, a command that already has an extension is found only when that extension is recognised. The file name must also equal the command, ignoring case (main.go:107). `Match.ExactNameNeedsRecognisedExtension` states this, and it also states that the flat phase probes such a command under its own name whatever its extension.
