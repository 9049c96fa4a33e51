# pwshpy: a verified model of its self-contained algorithms

pwshpy wraps operating-system calls, but between the calls sit a dozen algorithms with strong claims of
their own. This project models them in Dafny and proves those claims. Code that updates state step by step
is modelled as classes and methods with loops and is proved against specification functions; what the
specification functions promise is proved as lemmas. `dafny verify dfyconfig.toml` checks everything.

| file | models | main result |
|---|---|---|
| `Text.dfy`, `Sets.dfy`, `FreshNames.dfy` | text as code points (lone surrogates included), finite sets, numbered candidate names | a finite set of taken names leaves a candidate free |
| `Surrogates.dfy` | `domain/surrogates.py` | repaired keys: first free name, all different, no valid key touched |
| `TypeSearch.dfy` | which annotations can hold a mapping | on a cyclic graph of models, the cut search is reachability |
| `Values.dfy`, `Dump.dfy` | record values, the pruned walk, the dump, key repair | the pruned walk loses no key |
| `KeyMask.dfy` | the mask of placeholders for surrogate keys | unmask after dump after mask is the dump |
| `RepairPaths.dfy` | the paths the repair walk reports | they are, one by one, the addresses of the places that held a surrogate |
| `Repairer.dfy` | the output layer's repair walk | it agrees with the domain's; data is unchanged exactly where it was clean |
| `TomlScan.dfy` | the line-at-a-time TOML scanner | it classes every character as one automaton over the whole text |
| `Reference.dfy` | the `name[extras] @` in front of a direct reference | reading it without going back takes the longest match |
| `ShellQuote.dfy` | quoting for `sh` and PowerShell | two readings by `sh` give back one word per argument |
| `Descendants.dfy`, `TreeReaper.dfy` | the Linux process-tree helper as a state machine | no child left means no process of the tree left |
| `PosixAcl.dfy` | the POSIX ACL editor, bytes included | exactly which runs of requests keep the ACL valid; its mask is exact |
| `FileText.dfy` | text written whole or in chunks | both write the same bytes and fail on the same texts |
| `ImportClosure.dfy` | import candidates and the worklist over local imports | exactly the reachable files, each read once |
| `DottedNames.dfy` | splitting and joining at dots | each undoes the other |
| `Overrides.dfy` | `--set` overrides | the string check is the path check; the tree holds exactly the last values |
| `AccountControl.dfy` | creating a local account under a deadline | the reported outcome is what happened; the lock is attempted; the time is bounded |
| `KnownFolders.dfy` | a `user-dirs.dirs` line | counting code points and counting UTF-16 units agree |

## Conventions

- Text is `seq<CodePoint>` with `CodePoint` 0 to 0x10FFFF, because Dafny's `char` has no surrogates and the
  key machinery is about them.
- A dict is a mapping of parallel `keys` and `items` in insertion order, built with a `Put` that replaces the
  item of a key already there, so that losing an entry is possible in the model and has to be ruled out.
- The regular expressions not modelled, pydantic's JSON form of a leaf, orjson's encoder, a codec and the
  kernel's or another process's behaviour are parameters. What the processes of a tree do, and how each account command ends, is
  universally quantified.
- Bits of a permission are arithmetic on naturals, related to `|` bit by bit. Times are `real`.

## Where code and documentation differ

The code is followed, and the difference is stated by a proved condition.

- `fileio.py:118-119` says each chunk's newlines are normalised independently; the code holds back a trailing
  CR (`fileio.py:151-161`), which is what makes `FileText.WriteTextStream` true of every way of cutting.
- `_tree_reaper.py:181` says `descendants` excludes the root; on a parent map in which the root reaches itself
  the code returns the root too: exactly then, by `Descendants.FindDescendants`, and
  `Descendants.RootCanBeItsOwnDescendant` is such a map. `TreeReaper.TargetsAreOfTheTree`
  shows that the helper's own readings never make it a target (no pid being handed out again).
- `extract_requires_python` never lets its depth go below zero, so it is the bracket count of the text before
  a line exactly when that count never fell below zero (`TomlScan.DepthIsTheTextsCount`; for `]` alone it is
  not, `TomlScan.DepthCanDifferFromTheCount`).
- `add_ace` looks the entry to replace up by the id given but stores the id cut to 32 bits, so an id of more
  than 32 bits can leave two entries for one trustee (`PosixAcl.OversizedIdCanBreak`); and the undefined id
  0xFFFFFFFF is stored for a named entry. `PosixAcl.AddKeepsValid` gives the exact condition for every id and
  `PosixAcl.RunStaysValid` for every sequence of requests. For ids of more than 32 bits adding twice is not
  adding once (`PosixAcl.OversizedAddedTwice`), and removing does not undo adding
  (`PosixAcl.OversizedIsNotRemoved`).
- `_tree_reaper.py:251-252` takes the code of whatever child bears the program's pid, and `_tree_reaper.py:237`
  signals pids as they were read. Once the system hands a pid out again, the code can be another process's
  (`TreeReaper.ReusedPidBringsAnotherEnd`) and a target can lie outside the tree (`TreeReaper.ReusedPidStrays`);
  both claims are proved for as long as it does not.

## Model

| member | source | states |
|---|---|---|
| Texts.DecimalInjective | src/pwshpy/domain/surrogates.py:82 | no two numbers are written alike, so numbered suffixes never repeat |
| Texts.DecimalReadsBack | src/pwshpy/domain/surrogates.py:82 | the digits written for a number, read from the highest down, give the number, and only zero starts with a zero |
| Texts.StripParts | src/pwshpy/domain/packing.py:665 | stripping takes whitespace off both ends, all of it and nothing else |
| FreshNames.FirstFree | src/pwshpy/domain/surrogates.py:80-83 | among injectively numbered candidates a finite taken set leaves one free, and this is the first (pigeonhole termination) |
| Surrogates.ReplaceSurrogates | src/pwshpy/domain/surrogates.py:41-48 | one replacement character per surrogate and nothing else changed; the text is unchanged exactly when it held none |
| Surrogates.CandidatesInjective | src/pwshpy/domain/surrogates.py:80-82 | `name`, `name~2`, `name~3`, ... are pairwise different |
| Surrogates.FindFreeName | src/pwshpy/domain/surrogates.py:78-83 | the loop ends, with the first candidate that is not taken |
| Surrogates.RepairedKeyTakesFirstFreeName | src/pwshpy/domain/surrogates.py:69-74 | a bad key's name is the first candidate outside the valid keys and the names before it, and nothing else is reserved |
| Surrogates.NamesProperties | src/pwshpy/domain/surrogates.py:54-55 | the names hold no surrogate and are pairwise different, a valid key keeps its name, and a repaired key never takes a key's name, wherever that key stands |
| Surrogates.NamesOfCleanKeys | src/pwshpy/domain/surrogates.py:51-52 | a mapping without a bad key keeps every name |
| Surrogates.CollidingKeyBecomesSecond | src/pwshpy/domain/surrogates.py:6-9 | a bad key whose repaired text is a key already becomes that text and `~2` |
| Surrogates.RepairedKeyNames | src/pwshpy/domain/surrogates.py:51-75 | the map lists exactly the bad keys, and applying it gives the specified name to every key |
| TypeSearch.FoundIsReachable | src/pwshpy/domain/records.py:153-186 | a search that answers yes has a path to a mapping-capable annotation entering no model of `seen` |
| TypeSearch.LastVisit | src/pwshpy/domain/records.py:179-180 | a path that starts at a model has a last visit to it |
| TypeSearch.ReachableIsFound | src/pwshpy/domain/records.py:179-185 | cutting at a model already on the path loses no answer: what is reachable is reachable from the last visit on, without the repeat |
| TypeSearch.CanHoldIsReachability | src/pwshpy/domain/records.py:153-186 | with any models already seen, the search answers exactly reachability avoiding them |
| TypeSearch.SearchIsReachability | src/pwshpy/domain/records.py:150-186 | from an empty path the search answers exactly whether a mapping-capable annotation can be reached, models entered again and again |
| TypeSearch.PartIsFound | src/pwshpy/domain/records.py:166-183 | whatever can hold a mapping as a part makes the whole able to |
| Values.MappingIsFound | src/pwshpy/domain/records.py:142-186 | a value that holds a mapping is of an annotation the search says can |
| Values.SkippedHoldsNoMapping | src/pwshpy/domain/records.py:142-150 | a field the walk skips holds no mapping at any depth |
| Values.SearchIsExact | src/pwshpy/domain/records.py:142-186 | where every field has some value, the search says yes exactly for annotations of which some value holds a mapping |
| Values.PruningLosesNoKey | src/pwshpy/domain/records.py:189-206 | on every well-typed value, the pruned search for a surrogate key answers exactly as a walk of every field |
| Values.SeededWalkMissesAKey | src/pwshpy/domain/records.py:148-150 | why the search starts with nothing seen: a well-typed tree of records with a bad key in a child, which a search seeded with the model misses |
| Dump.DumpedIsJson | src/pwshpy/domain/records.py:66-95 | a dump is mappings, lists and leaves with no key twice, and has a bad key exactly when the value had |
| Dump.RepairKeys | src/pwshpy/domain/records.py:129-137 | building the new dicts entry by entry gives the specified names and loses no entry |
| Dump.KeysRepairedProperties | src/pwshpy/domain/records.py:129-137 | after repair no key holds a surrogate, every mapping has as many entries, and data comes back unchanged exactly when it had no bad key |
| KeyMasks.PlaceholdersInjective | src/pwshpy/domain/records.py:255 | no two numbers give the same placeholder |
| KeyMasks.FreeNumber | src/pwshpy/domain/records.py:254-256 | the loop ends at the first number, from the starting one on, whose placeholder is not taken |
| KeyMasks.MaskedStays | src/pwshpy/domain/records.py:257-258 | placeholders handed out later do not disturb what is masked already |
| KeyMasks.MaskedMatches | src/pwshpy/domain/records.py:228-240 | a masked value is of every annotation the value was of |
| KeyMasks.MaskedIsClean | src/pwshpy/domain/records.py:228-240 | a masked record is well typed and has no surrogate key, so pydantic can dump it |
| KeyMasks.UnmaskUndoesMask | src/pwshpy/domain/records.py:228-249 | dumping the masked value and unmasking gives exactly the dump of the value: every mapping has its own keys again and no two collapse |
| KeyMasks.KeyMask.constructor | src/pwshpy/domain/records.py:224-226 | taken are exactly the record's keys, and no placeholder is handed out |
| KeyMasks.KeyMask.StandIn | src/pwshpy/domain/records.py:251-259 | a bad key gets a placeholder equal to no key of the record and to none before it, one table entry is added, and a good key is kept |
| KeyMasks.KeyMask.Mask | src/pwshpy/domain/records.py:228-240 | the value with every bad key replaced by a placeholder standing for it; the table only grows |
| KeyMasks.KeyMask.MaskItems | src/pwshpy/domain/records.py:230-239 | the members the walk looks at are masked, the others are the very values they were |
| KeyMasks.KeyMask.MaskMapping | src/pwshpy/domain/records.py:233-235 | no two entries of a mapping collapse while their keys are swapped |
| KeyMasks.EntryMasked | src/pwshpy/domain/records.py:235 | the next entry's key is new, whether it is a placeholder or was good already |
| KeyMasks.Unmask | src/pwshpy/domain/records.py:242-249 | each placeholder turned back, no entry lost on the way |
| KeyMasks.DumpKeepingKeys | src/pwshpy/domain/records.py:122-126 | exactly the dump pydantic could not have made itself, surrogate keys included |
| KeyMasks.ToDictKeepingSurrogateKeys | src/pwshpy/domain/records.py:98-119 | the dump with surrogate keys kept, on the clean path as on the other |
| KeyMasks.ToDict | src/pwshpy/domain/records.py:66-95 | on either path the dump with every bad key repaired, no surrogate key, no entry lost; unchanged for a record without a bad key |
| Repairers.Repairer.Repair | src/pwshpy/adapters/native/record_json.py:239-248 | the repaired data, the paths of what was replaced appended in walking order |
| Repairers.Repairer.RepairItems | src/pwshpy/adapters/native/record_json.py:245-247 | every member repaired, each under its index |
| Repairers.Repairer.RepairMapping | src/pwshpy/adapters/native/record_json.py:250-258 | every entry kept under its specified name, a renamed key reported before its item |
| Repairers.Repairer.RepairLeaf | src/pwshpy/adapters/native/record_json.py:266-275 | a leaf becomes text only where its converted text holds a surrogate, and only then is reported |
| Repairers.Repairer.RepairText | src/pwshpy/adapters/native/record_json.py:260-264 | text is replaced, and reported exactly when it held a surrogate |
| Repairers.TheTwoWalksAgree | src/pwshpy/adapters/native/record_json.py:239-275 | the output layer's walk is the domain's key repair followed by the repair of every leaf |
| Repairers.BadKeysAloneAreNamedAlike | src/pwshpy/domain/surrogates.py:9-10 | where only keys are bad, the output layer writes exactly what `to_dict` gives |
| RepairPaths.PathsTellSurrogates | src/pwshpy/adapters/native/record_json.py:137-140 | no path is reported exactly when nothing held a surrogate |
| Repairers.RepairedIsClean | src/pwshpy/adapters/native/record_json.py:239-275 | no surrogate is left anywhere and every mapping and list keeps its number of members |
| Repairers.CleanDataIsKept | src/pwshpy/adapters/native/record_json.py:136-137 | dumped data is unchanged exactly when it held no surrogate |
| RepairPaths.PathsArePrintable | src/pwshpy/adapters/native/record_json.py:278-288 | every reported path is printable ASCII, whatever the keys hold |
| RepairPaths.Ascii | src/pwshpy/adapters/native/record_json.py:278-284 | a printable character stays and every other is a question mark |
| RepairPaths.AddressesAreBadPlaces | src/pwshpy/adapters/native/record_json.py:239-275 | the addresses collected, each by the numbers of the members gone down to, are exactly those of a leaf or a key that held a surrogate |
| RepairPaths.AddressesInWalkingOrder | src/pwshpy/adapters/native/record_json.py:239-275 | they come in walking order: what stands before, or above, first |
| RepairPaths.PathsAreAddresses | src/pwshpy/adapters/native/record_json.py:239-288 | the paths reported are these addresses one by one: the names and indexes gone down through with dots between them, an empty name in front leaving nothing |
| RepairPaths.PathsNameBadPlaces | src/pwshpy/adapters/native/record_json.py:239-288 | so every place that held a surrogate is reported, and nothing else is |
| RepairPaths.SplitPathLeadsBack | src/pwshpy/adapters/native/record_json.py:287-288 | below names that are printable, not empty and without a dot, splitting a path at its dots gives the names and indexes of its address, and the path belongs to that one place only |
| RepairPaths.UniqueProperties | src/pwshpy/adapters/native/record_json.py:99-100 | each path once, and exactly the paths reported |
| RepairPaths.UniqueKeepsOrder | src/pwshpy/adapters/native/record_json.py:99-100 | in the order of first appearance: the paths of any first part of the list stand first |
| Repairers.RepairSurrogates | src/pwshpy/adapters/native/record_json.py:115-141 | the value itself when it held no surrogate, else the repaired data; the path list is empty exactly then, distinct and printable; the paths are exactly those of the places that held a surrogate |
| Repairers.JsonBytesOf | src/pwshpy/adapters/native/record_json.py:63-100 | what the encoder takes is written as it is; what it refuses is repaired only if it holds a surrogate, and otherwise still refused; the paths are exactly those of the places that held a surrogate |
| Repairers.RecordJsonBytes | src/pwshpy/adapters/native/record_json.py:144-167 | with an encoder that refuses surrogates, the bytes are those of the repaired dump, and of what `to_dict` gives whenever that has nothing to repair in a value; the paths are exactly those of the places of the dump that held a surrogate |
| Repairers.RepairRecord | src/pwshpy/adapters/native/record_json.py:170-187 | the repaired dump, without a surrogate; no path exactly when nothing was replaced; the paths are exactly those of the places of the dump that held a surrogate |
| TomlScan.SkipRun | src/pwshpy/domain/packing.py:630-635 | a quote run too short to close is content, a longer one closes with at most five quotes, as the automaton reads it |
| TomlScan.SkipOpening | src/pwshpy/domain/packing.py:593-598 | three quotes open a multi-line string, fewer a single-line or empty one |
| TomlScan.SkipEscape | src/pwshpy/domain/packing.py:624-626 | only in basic strings a backslash takes the next character with it |
| TomlScan.StringEnd | src/pwshpy/domain/packing.py:604-636 | the characters skipped are exactly string characters, and the rest is read on from where the automaton stands |
| TomlScan.ScanTomlCharacters | src/pwshpy/domain/packing.py:571-601 | code characters, comment start and open string are those of the reference automaton started at the carried delimiter |
| TomlScan.ScanTomlLine | src/pwshpy/domain/packing.py:522-554 | the bracket change counts exactly the automaton's code characters |
| TomlScan.BracketsAreCounted | src/pwshpy/domain/packing.py:553 | the change is the number of opening brackets in the code less that of closing ones |
| TomlScan.ClassesOfParts | src/pwshpy/domain/packing.py:571-601 | the automaton reads a text part by part, carrying its state |
| TomlScan.LinesReadAsTheText | src/pwshpy/domain/packing.py:661-674 | line by line, every character gets the class one pass over the whole text gives it |
| TomlScan.LineStartIsADelimiter | src/pwshpy/domain/packing.py:525-528 | at every line start the delimiter left open is all the state there is to carry |
| TomlScan.DepthIsTheTextsCount | src/pwshpy/domain/packing.py:673-674 | the depth is never below the bracket count of all the text before, and equals it exactly when that count never fell below zero |
| TomlScan.DepthCanDifferFromTheCount | src/pwshpy/domain/packing.py:674 | after a single closing bracket the depth is 0 and the count -1 |
| TomlScan.StripKeeps | src/pwshpy/domain/packing.py:664-673 | stripping a line changes neither its bracket count nor the string left open |
| TomlScan.CommentCarriesOneLine | src/pwshpy/domain/packing.py:665 | a comment line carries exactly one TOML line: the one behind `# `, or behind `#` alone if that starts with no space |
| TomlScan.TomlLinesAreCarried | src/pwshpy/domain/packing.py:663-665 | the lines scanned are those the block's comment lines carry, its first and last line apart, for every list of lines |
| TomlScan.ExtractRequiresPython | src/pwshpy/domain/packing.py:639-675 | the first line of the whole text that is a top-level header or a key line decides, as the whole text classes it |
| TomlScan.HasGitSource | src/pwshpy/domain/packing.py:716-756 | true exactly when a value, or a line of the whole text without its comment, may name a git source |
| ShellQuote.EscapedReadsBack | src/pwshpy/domain/packing.py:1022-1031 | escaped text is read inside single quotes as itself, quotes included |
| ShellQuote.QuotedReadsBack | src/pwshpy/domain/packing.py:1022-1031 | a quoted value adds exactly itself to the word `sh` is reading, wherever a word can start or go on |
| ShellQuote.SpacedReadsAsWords | src/pwshpy/domain/packing.py:1019 | pieces that read as one word each, spaced, read as exactly those words |
| ShellQuote.ArgsReadBack | src/pwshpy/domain/packing.py:1006-1019 | the rendered list reads as exactly one word per argument, the argument itself |
| References.MatchedIsRead | src/pwshpy/domain/packing.py:241 | text of the shape is read whole, whatever follows but a space: there is no other way to take its name and extras apart |
| References.ReadIsLongest | src/pwshpy/domain/packing.py:241 | the part read in front of a direct reference is the longest one of the shape `name[extras] @`; nothing is read exactly where no part has it |
| References.DotGuardNeverDecides | src/pwshpy/domain/packing.py:1056 | the guard against a leading dot changes no answer |
| ShellQuote.SplitIsAtTheHead | src/pwshpy/domain/packing.py:1034-1058 | a value has exactly one such head and is split behind it exactly if what follows is a relative location |
| ShellQuote.AnchoredArgs | src/pwshpy/domain/packing.py:1071-1110 | the loop renders each value, split only right after `--with`, as its specified piece |
| ShellQuote.VariableReadsAsItsValue | src/pwshpy/domain/packing.py:1096-1097 | the spliced variable adds exactly its value, whatever that holds, and is never split |
| ShellQuote.AnchoredArgsReadBack | src/pwshpy/domain/packing.py:1093-1110 | each argument reads as one word: itself, or head, prefix and location for a relative `--with` value |
| ShellQuote.QuotedTwiceReadsBack | src/pwshpy/domain/packing.py:991 | the assignment reads the quoted list as one word in any environment, and `eval` of `set --` with it yields the arguments |
| ShellQuote.AnchoredTwiceReadsBack | src/pwshpy/domain/packing.py:998 | the same of the re-anchored list, whose variable is expanded by the `eval` only |
| ShellQuote.LiteralReadsBack | src/pwshpy/domain/packing.py:918-934 | PowerShell reads the literal as its value and ends it where it was meant to, whichever of the five quotes the value holds |
| ShellQuote.UnquotePowerShellLiteral | src/pwshpy/domain/packing.py:937-955 | the loop gives the text with each doubled quote as one |
| ShellQuote.UnquoteUndoesQuote | src/pwshpy/domain/packing.py:937-946 | unquoting what was quoted gives the value back |
| ShellQuote.ArrayReadsBack | src/pwshpy/domain/packing.py:906-915 | a rendered list is read as exactly its values |
| ShellQuote.RelativeSuffixes | src/pwshpy/domain/packing.py:1079-1090 | the loop renders the relative tail of each value, empty where it is left as it is |
| ShellQuote.SuffixesAnchorAlike | src/pwshpy/domain/packing.py:1079-1110 | read back, the suffixes are parallel to the values, and putting the prefix before a value's suffix gives the very word the `sh` runner makes of it |
| Descendants.ChildrenOf | src/pwshpy/adapters/native/_tree_reaper.py:187-189 | each pid's list holds exactly the pids with that parent |
| Descendants.PushNew | src/pwshpy/adapters/native/_tree_reaper.py:193-196 | exactly the children not found before are found and pushed |
| Descendants.FindDescendants | src/pwshpy/adapters/native/_tree_reaper.py:180-197 | on every map, cyclic ones included, the search ends with exactly the pids that come to the root in one parent step or more |
| Descendants.RootCanBeItsOwnDescendant | src/pwshpy/adapters/native/_tree_reaper.py:180-181 | where the root is its own parent, it is its own descendant |
| TreeReaper.AdopterIsOfTheSameSide | src/pwshpy/adapters/native/_tree_reaper.py:8-10 | who adopts a process's orphans is in the tree, or the helper, exactly when the process is in the tree |
| TreeReaper.AdopterIsOnTheWay | src/pwshpy/adapters/native/_tree_reaper.py:8-10 | the adopter lies on the process's parent chain to the helper |
| TreeReaper.ExitKeeps | src/pwshpy/adapters/native/_tree_reaper.py:8-10 | when a process exits and its orphans are adopted, every process of the tree keeps a parent chain to the helper |
| TreeReaper.StepKeeps | src/pwshpy/adapters/native/_tree_reaper.py:8-12 | so it does through every fork (beside its parent too), subreaper change, exit and reap of the other processes |
| TreeReaper.HelperReapKeeps | src/pwshpy/adapters/native/_tree_reaper.py:216-222 | and through the helper's own reaping |
| TreeReaper.NoChildNoTree | src/pwshpy/adapters/native/_tree_reaper.py:10-11 | no child left means no process of the tree is left |
| TreeReaper.NoneRunningNoChild | src/pwshpy/adapters/native/_tree_reaper.py:213-222 | once every exited child is reaped, the helper has a child exactly when something of the tree still runs |
| TreeReaper.TreeIsDescendants | src/pwshpy/adapters/native/_tree_reaper.py:237 | the helper's descendants in the process table are exactly the processes of the tree |
| TreeReaper.OrphansAreAdopted | src/pwshpy/adapters/native/_tree_reaper.py:8-10 | every running process of the tree has a nearest subreaper, in the tree or the helper, so its exit is always a step of the model |
| TreeReaper.EveryRunKeeps | src/pwshpy/adapters/native/_tree_reaper.py:8-12 | after every run, either the helper has a child or nothing of the tree is left |
| TreeReaper.AllStopped | src/pwshpy/adapters/native/_tree_reaper.py:52-54 | where everything of the tree that ran has stopped and nothing was forked into it, nothing of it runs |
| TreeReaper.TargetsAreOfTheTree | src/pwshpy/adapters/native/_tree_reaper.py:237-238 | where the links read are right as far as the tree goes, only processes of the tree are targets |
| TreeReaper.SteadyAreFound | src/pwshpy/adapters/native/_tree_reaper.py:200-209 | however much changes while the table is read, every process of the tree that stays where it is, and is read with all between it and the helper, is among the targets |
| TreeReaper.ExitCodeTells | src/pwshpy/adapters/native/_tree_reaper.py:251-252 | the code taken from a wait status is the exit code, or the negated signal, whether a core was dumped or not |
| TreeReaper.ReusedPidStrays | src/pwshpy/adapters/native/_tree_reaper.py:200-209 | a pid handed out again after it was read is a target although its process is outside the tree |
| TreeReaper.Helper.constructor | src/pwshpy/adapters/native/_tree_reaper.py:280-291 | a childless process that becomes a subreaper establishes the invariant |
| TreeReaper.Helper.Start | src/pwshpy/adapters/native/_tree_reaper.py:294-302 | the started program is the helper's child and the whole tree |
| TreeReaper.Helper.WaitForChild | src/pwshpy/adapters/native/_tree_reaper.py:248-249 | a child is reaped with the status of the end it really had, or there is no child at all, or everything given to happen has happened; meanwhile the helper does nothing but reap; the started program is not lost track of, unless its pid is handed out again |
| TreeReaper.Helper.WaitTree | src/pwshpy/adapters/native/_tree_reaper.py:244-252 | it waits through all that is given to happen, doing nothing but reap, unless no child is left before; when it returns, nothing of the tree is left and the code is the started program's own, unless its pid was handed out again |
| TreeReaper.ReusedPidBringsAnotherEnd | src/pwshpy/adapters/native/_tree_reaper.py:251-252 | a run in which the helper reaps the program with 0 and then a process of the same pid with 7 |
| TreeReaper.Helper.ReapReady | src/pwshpy/adapters/native/_tree_reaper.py:212-222 | no exited child is left unreaped; true exactly when no child is left, which is exactly when nothing of the tree runs; so it is where every running process of the tree exits meanwhile and none is forked into it |
| TreeReaper.Helper.ProcParents | src/pwshpy/adapters/native/_tree_reaper.py:200-209 | read while processes come and go: whoever is read, with the parent it had when last read, and nobody else; the links are right as far as the tree goes while no pid is handed out again |
| TreeReaper.Helper.KillRound | src/pwshpy/adapters/native/_tree_reaper.py:237-240 | signalled are exactly the processes read below the helper: all of the tree while no pid is handed out again, and everything of it that is steady while it is read; a still system's tree is signalled whole, and the round empties it where everything signalled stops and nothing is forked into it |
| TreeReaper.Helper.KillTree | src/pwshpy/adapters/native/_tree_reaper.py:231-241 | round after round, exactly what the readings show below the helper is signalled, nobody outside the tree while no pid is handed out again; it returns early only on an empty tree and gives up only after all rounds, on one in which something still runs |
| TreeReaper.Helper.Run | src/pwshpy/adapters/native/_tree_reaper.py:305-321 | a code is reported only when the whole tree is gone and is the program's own unless its pid was handed out again, and nobody is signalled; a kill is reported only after the wait for the whole script, with a child left, and then exactly what its readings show below the helper is signalled, a still tree whole; nothing happened where it could not start; a kill stays within the tree while no pid is handed out again |
| PosixAcl.OrBit | src/pwshpy/adapters/native/posix_acl.py:270 | the union of permissions has a bit exactly when one of them has |
| PosixAcl.BaseEntriesAreValid | src/pwshpy/adapters/native/posix_acl.py:143-149 | every mode gives a valid ACL without mask or named entries |
| PosixAcl.BaseEntriesGrantTheMode | src/pwshpy/adapters/native/posix_acl.py:143-149 | the owner's, the owning group's and the others' entries have exactly bits 8 to 6, 5 to 3 and 2 to 0 of the mode |
| PosixAcl.RequestKeepsTheMode | src/pwshpy/adapters/native/posix_acl.py:304-322 | whatever is requested, what the mode grants these three stays granted |
| PosixAcl.WithRecomputedMask | src/pwshpy/adapters/native/posix_acl.py:261-271 | the loop gives the entries with the mask specified |
| PosixAcl.RemaskedMembers | src/pwshpy/adapters/native/posix_acl.py:261-271 | entries but the mask stay, and there is a mask exactly when someone is named |
| PosixAcl.RemaskedMask | src/pwshpy/adapters/native/posix_acl.py:267-271 | the mask has exactly the bits some entry of the group class has: none is cut, none is added |
| PosixAcl.SortedPermutes | src/pwshpy/adapters/native/posix_acl.py:276 | sorting keeps every entry, as often as it stands there |
| PosixAcl.SortedIsOrdered | src/pwshpy/adapters/native/posix_acl.py:276 | no entry stands after one it belongs before |
| PosixAcl.SortedIsStable | src/pwshpy/adapters/native/posix_acl.py:276 | entries the order does not tell apart stay in the order they came in |
| PosixAcl.SortedSorts | src/pwshpy/adapters/native/posix_acl.py:276 | without two entries alike the order is strict |
| PosixAcl.SortedIsUnique | src/pwshpy/adapters/native/posix_acl.py:276 | there is one canonical order of a set of entries |
| PosixAcl.DerivedIsNormal | src/pwshpy/adapters/native/posix_acl.py:261-279 | entries with their mask derived and sorted are valid, ordered and exactly masked, and no id is cut |
| PosixAcl.RequestKeepsValid | src/pwshpy/adapters/native/posix_acl.py:304-322 | adding an id that can be stored, or removing any, leaves a valid, exactly masked ACL with exactly the entries asked for |
| PosixAcl.EveryRunKeepsValid | src/pwshpy/adapters/native/posix_acl.py:304-322 | every sequence of requests with ids that can be stored keeps a valid ACL valid, and exactly masked after the first |
| PosixAcl.RunStaysValid | src/pwshpy/adapters/native/posix_acl.py:304-322 | a sequence of requests with whatever ids keeps the ACL valid throughout exactly when each is accepted by the ACL it meets: its id is not cut to the undefined id nor to one already held |
| PosixAcl.CutActsAlike | src/pwshpy/adapters/native/posix_acl.py:277-314 | an accepted request leaves the entries and the mask that the request with the id as it is stored leaves |
| PosixAcl.RunActsCut | src/pwshpy/adapters/native/posix_acl.py:304-322 | so does a whole sequence of accepted requests |
| PosixAcl.NormalIsDetermined | src/pwshpy/adapters/native/posix_acl.py:261-276 | two such ACLs with the same entries, masks apart, are the same |
| PosixAcl.LastRequestCounts | src/pwshpy/adapters/native/posix_acl.py:304-322 | among ids that can be stored the last request about a trustee counts: adding twice is adding once, removing after adding is removing |
| PosixAcl.AddingTwiceStaysValid | src/pwshpy/adapters/native/posix_acl.py:304-314 | where adding once keeps the ACL valid, adding twice does exactly for ids of 32 bits |
| PosixAcl.OversizedAddedTwice | src/pwshpy/adapters/native/posix_acl.py:277 | user 2^32 + 1000 added to a file's mode bits once keeps the ACL valid, twice breaks it |
| PosixAcl.OversizedIsNotRemoved | src/pwshpy/adapters/native/posix_acl.py:316-322 | an entry stored under a cut id is not removed by the id given |
| PosixAcl.RequestsCommute | src/pwshpy/adapters/native/posix_acl.py:304-322 | requests about different trustees, with ids that can be stored, can be made in either order |
| PosixAcl.AcceptedRequestsCommute | src/pwshpy/adapters/native/posix_acl.py:277-322 | with whatever ids, two accepted requests stored for different trustees are accepted in either order and leave the same entries |
| PosixAcl.AddThenRemoveRestores | src/pwshpy/adapters/native/posix_acl.py:304-322 | adding an absent trustee whose id can be stored and removing it leaves the original with its mask recomputed |
| PosixAcl.OversizedIdKeepsValid | src/pwshpy/adapters/native/posix_acl.py:277 | with an id of more than 32 bits the ACL stays valid exactly when the id it is cut down to names somebody and nobody holds it |
| PosixAcl.AddKeepsValid | src/pwshpy/adapters/native/posix_acl.py:304-314 | for every id, exactly when adding an entry keeps a valid ACL valid |
| PosixAcl.OversizedIdCanBreak | src/pwshpy/adapters/native/posix_acl.py:277 | an ACL with an entry for user 1000 is broken by adding one for user 2^32 + 1000 |
| PosixAcl.Packing32IsInverse | src/pwshpy/adapters/native/posix_acl.py:40-41 | little-endian 32-bit packing loses nothing but what exceeds 32 bits |
| PosixAcl.UnpackUndoesPack | src/pwshpy/adapters/native/posix_acl.py:277 | an entry reads back as itself, its id cut to 32 bits |
| PosixAcl.CodesFollowTheOrder | src/pwshpy/adapters/native/posix_acl.py:66-71 | the tag codes are the powers of two in canonical order |
| PosixAcl.BlobIsLaidOut | src/pwshpy/adapters/native/posix_acl.py:40-41 | what is written is version 2 and then, entry by entry in canonical order, tag, permission and cut id in two, two and four bytes, the lowest first |
| PosixAcl.ValidIsWrittenInOrder | src/pwshpy/adapters/native/posix_acl.py:84-91 | a valid ACL is written owner first, then named users by their ids, the owning group, named groups by their ids, the mask, the others |
| PosixAcl.ReadEntries | src/pwshpy/adapters/native/posix_acl.py:172-178 | the loop reads entry after entry and refuses a blob that ends inside one |
| PosixAcl.BlobReadsBack | src/pwshpy/adapters/native/posix_acl.py:274-279 | what was written reads back as the same entries in canonical order, their ids cut to 32 bits, the blob used up exactly |
| PosixAcl.SameEntriesSameBytes | src/pwshpy/adapters/native/posix_acl.py:274-279 | valid ACLs with the same entries in any order are written as the same bytes |
| PosixAcl.AclFile.CurrentAcl | src/pwshpy/adapters/native/posix_acl.py:181-189 | the attribute's entries, or those of the mode bits, which grant exactly what the mode grants |
| PosixAcl.AclFile.Write | src/pwshpy/adapters/native/posix_acl.py:274-279 | every ACL that is whole and of known tags is edited as requested, valid or not; nothing is written where a tag is unknown or the attribute is malformed |
| PosixAcl.AclFile.AddAce | src/pwshpy/adapters/native/posix_acl.py:304-314 | the low three bits are granted; a deny entry is refused; nothing is written then, nor where the ACL cannot be edited; of a file that had no attribute, owner, owning group and others keep the bits of the mode |
| PosixAcl.AclFile.RemoveAce | src/pwshpy/adapters/native/posix_acl.py:316-322 | the entry is gone; a deny removal changes nothing, nor does one of an ACL that cannot be edited; of a file that had no attribute, owner, owning group and others keep the bits of the mode |
| FileText.NormalizedIsOnePass | src/pwshpy/adapters/native/fileio.py:205-213 | the three whole-text replacements are one pass turning each CRLF, CR or LF into the newline |
| FileText.OnePassOfParts | src/pwshpy/adapters/native/fileio.py:151-158 | normalising is done part by part wherever the cut does not split a CRLF |
| FileText.SplitLineEnd | src/pwshpy/adapters/native/fileio.py:151-153 | a CRLF cut in two is one newline, all of it in the first part |
| FileText.PartFails | src/pwshpy/adapters/native/fileio.py:159-161 | what cannot be encoded in a part cannot be encoded in the whole |
| FileText.StreamStep | src/pwshpy/adapters/native/fileio.py:155-159 | one chunk keeps the file equal to the encoded text so far, with one CR at most held back |
| FileText.WriteText | src/pwshpy/adapters/native/fileio.py:94-103 | the encoded normalised text after the mark, or nothing where it cannot be encoded |
| FileText.WriteTextStream | src/pwshpy/adapters/native/fileio.py:145-166 | for every cut into chunks, exactly the bytes `write_text` writes, failing on exactly the same texts |
| ImportClosure.WithParentsInOrder | src/pwshpy/domain/packing.py:437-441 | a name is yielded after each of its parent packages, the outermost first |
| ImportClosure.WithParentsMembers | src/pwshpy/domain/packing.py:437-441 | a name and its parent packages are exactly the non-empty prefixes of the name |
| ImportClosure.BaseIsBelowTheAnchor | src/pwshpy/domain/packing.py:421-434 | a relative import starts from the package with its last `level - 1` parts climbed out of, and from nowhere exactly where it climbs past the root |
| ImportClosure.NodeCandidatesMembers | src/pwshpy/domain/packing.py:405-418 | a statement yields exactly: each module named and its parents; or, below the anchor, the module and its parents and each name but `*` below it |
| ImportClosure.CandidatesMembers | src/pwshpy/domain/packing.py:393-418 | the candidates of a source are exactly the names its import statements import, read off their modules, levels and names |
| ImportClosure.CandidatesOnce | src/pwshpy/domain/packing.py:397-402 | each name once |
| ImportClosure.CandidatesHoldParents | src/pwshpy/domain/packing.py:373-374 | the candidates are closed under parent packages and none is empty, relative imports included |
| ImportClosure.ParentsAreReached | src/pwshpy/domain/packing.py:373-374 | each parent package that resolves, of whatever a reached file imports, is reached too |
| ImportClosure.SortImports | src/pwshpy/adapters/native/packer.py:232-241 | one file's imports add exactly its external roots and its local files not found before |
| ImportClosure.Collect | src/pwshpy/adapters/native/packer.py:225-241 | one file more keeps: everything found or pending is reached, and what a found file imports is found or pending |
| ImportClosure.ReachedIsFound | src/pwshpy/adapters/native/packer.py:225-241 | when nothing is pending, everything reachable has been found |
| ImportClosure.WalkImports | src/pwshpy/adapters/native/packer.py:222-241 | the worklist ends having read exactly the reachable files once each, with what stands in them, cycles and duplicates notwithstanding, and fails exactly where one cannot be read as Python |
| ImportClosure.CollectSources | src/pwshpy/adapters/native/packer.py:212-252 | exactly the reachable and the included files, with what stands in them, and exactly the top-level names that neither resolve, nor are standard, nor resolve by themselves |
| DottedNames.JoinUndoesSplit | src/pwshpy/adapters/config/overrides.py:64-66 | splitting at dots and joining again is the identity, and a dot in the text means two parts or more |
| DottedNames.SplitUndoesJoin | src/pwshpy/adapters/config/overrides.py:186 | joining parts without dots and splitting again is the identity |
| Overrides.ParseIsExact | src/pwshpy/adapters/config/overrides.py:56-77 | parsing takes exactly the texts that are a dotted path, an `=` and a value, and takes them apart |
| Overrides.DottedPrefixIsPathPrefix | src/pwshpy/adapters/config/overrides.py:160-161 | one dotted key followed by a dot starts another exactly when its parts are a proper prefix of the other's |
| Overrides.RefuseConflicts | src/pwshpy/adapters/config/overrides.py:144-163 | exactly the lists in which one path is a proper prefix of another are refused |
| Overrides.NewTableKeepsLeaves | src/pwshpy/adapters/config/overrides.py:136-140 | a new empty dict put in place changes no value |
| Overrides.ValueKeepsOthers | src/pwshpy/adapters/config/overrides.py:141 | setting a value where no dict is held changes no other path's value |
| Overrides.ValueIsFound | src/pwshpy/adapters/config/overrides.py:141 | the path set looks up to the value set |
| Overrides.NoValueInTheWay | src/pwshpy/adapters/config/overrides.py:138-140 | the walk never meets an override's value where it needs a dict |
| Overrides.NoDictInTheWay | src/pwshpy/adapters/config/overrides.py:141-148 | the assignment never drops a dict |
| Overrides.OverrideTree.NestOverride | src/pwshpy/adapters/config/overrides.py:116-141 | the tree, nested in place, holds exactly the last value of every path set, and dicts only on the way to one |
| Overrides.NestOverrides | src/pwshpy/adapters/config/overrides.py:166-191 | refused exactly for a malformed or conflicting list; otherwise each override's path looks up to its last value, nothing else has one, and the paths that hold a value are exactly those the returned keys name; dicts stand exactly where the paths pass through |
| Overrides.KeysNameLeaves | src/pwshpy/adapters/config/overrides.py:185-191 | the paths that hold a value and the returned keys name each other, one to one |
| Overrides.DictsAreOnTheWay | src/pwshpy/adapters/config/overrides.py:136-140 | a path looks up to a dict exactly when it is empty or a proper prefix of an override's path |
| Overrides.ReorderingChangesNothing | src/pwshpy/adapters/config/overrides.py:172-191 | where each path has the same overrides in the same order, lists mixed in any way are refused alike, return the same keys and give every path the same value |
| Overrides.ReorderingKeepsTree | src/pwshpy/adapters/config/overrides.py:188-191 | the trees built from such lists hold the same values |
| Overrides.ReorderingKeepsParsing | src/pwshpy/adapters/config/overrides.py:185 | in whatever order, the same texts are malformed |
| Overrides.SwapIsReordering | src/pwshpy/adapters/config/overrides.py:188-190 | neighbours of different paths changing places is such a reordering |
| AccountControl.Deadline.constructor | src/pwshpy/adapters/native/posix_account_control.py:103-105 | the deadline ends `limit` after its creation |
| AccountControl.Controller.Run | src/pwshpy/adapters/native/posix_account_control.py:234-256 | a command gets exactly what is left of the deadline and is not started when nothing is; a timeout before or during it carries the verb's limit |
| AccountControl.Controller.LockWithinGrace | src/pwshpy/adapters/native/posix_account_control.py:200-206 | the lock is always started, under its own five seconds, and no failure means locked |
| AccountControl.Controller.AfterPartialCreate | src/pwshpy/adapters/native/posix_account_control.py:184-198 | a requested lock is attempted, the cause kept, and a timeout stays one with the verb's limit |
| AccountControl.Controller.FinishAccount | src/pwshpy/adapters/native/posix_account_control.py:174-181 | each later step is started only if asked for and if every requested step before it succeeded; the cause is the step that failed; `password_set` exactly when `chpasswd` succeeded |
| AccountControl.RaisedReports | src/pwshpy/adapters/native/posix_account_control.py:184-198 | the text says password set exactly when `chpasswd` succeeded, and locked exactly when the grace lock, attempted last of all, did |
| AccountControl.PartialCreateReports | src/pwshpy/adapters/native/posix_account_control.py:174-198 | so it does for every way the steps after `useradd` can fail, and what was started is the plan up to the failure and the grace lock |
| AccountControl.NothingUnasked | src/pwshpy/adapters/native/posix_account_control.py:172-181 | no lock is started without `disabled`, no `chpasswd` without a password, nothing after a `useradd` that did not succeed, and four commands at most |
| AccountControl.StepInTime | src/pwshpy/adapters/native/posix_account_control.py:166-171 | a command given the rest of the deadline ends within it but for what that command itself was kept waiting, whatever came before |
| AccountControl.GraceInTime | src/pwshpy/adapters/native/posix_account_control.py:167-170 | the lock within the grace ends within the grace more, but for what the last planned command and the lock were kept waiting |
| AccountControl.Controller.NewUser | src/pwshpy/adapters/native/posix_account_control.py:147-182 | for every outcome of every command: a normal return means created, with `password` that it was set, with `disabled` locked, and `Created` that the account was found afterwards; a raise means the plan was followed in order up to the step that is its cause, with exactly one grace lock exactly if a lock was asked for and the account created; every report is true; and all is over within the timeout plus the grace where it was given, but for what the last planned command and the grace lock were kept waiting |
| KnownFolders.SkipWhitespace | src/pwshpy/adapters/native/known_folders.py:367-371 | the index of the first character that is not white space |
| KnownFolders.FindValueStart | src/pwshpy/adapters/native/known_folders.py:353-364 | the index parser finds what the parser on the remaining text finds, and no index leaves the line |
| KnownFolders.UserDirsValue | src/pwshpy/adapters/native/known_folders.py:327-350 | the index parser returns the value specified |
| KnownFolders.ValueIsBetweenTheQuotes | src/pwshpy/adapters/native/known_folders.py:327-364 | a line has a value exactly if it is the key, `=` and a path in quotes, whitespace between them, three characters or more behind the opening quote; the value is the absolute path, or the one below home |
| KnownFolders.WhitespaceIsSpace | src/pwshpy/adapters/native/known_folders.py:374-378 | its whitespace is that of `str.isspace` but for U+001C to U+001F |
| KnownFolders.JoinHasASlash | src/pwshpy/adapters/native/known_folders.py:381-394 | joined parts have a slash between them, one more only where neither had one there |
| KnownFolders.FindQuote | src/pwshpy/adapters/native/known_folders.py:346 | the next quote at or after the index, or -1 where there is none |
| KnownFolders.FirstGuardNeverDecides | src/pwshpy/adapters/native/known_folders.py:332-333 | the length guard at `=` never rejects a line the guard at the quote would accept |
| KnownFolders.UnitsDecode | src/pwshpy/adapters/native/known_folders.py:334-336 | the units of a character are itself, or the surrogate pair that decodes to it |
| KnownFolders.Utf16Prefix | src/pwshpy/adapters/native/known_folders.py:334-336 | one text starts another exactly when its UTF-16 units start the other's |
| KnownFolders.Utf16Join | src/pwshpy/adapters/native/known_folders.py:381-394 | joining two paths and encoding them commute |
| KnownFolders.ShortHasNoValue | src/pwshpy/adapters/native/known_folders.py:334-336 | a line whose remainder passes the guards in units but not in characters has no value either way |
| KnownFolders.CountingUnitsAgrees | src/pwshpy/adapters/native/known_folders.py:327-371 | for every line, home and key without lone surrogates, counting code points and counting UTF-16 units give the same value |

## Left out

- Operating-system bindings, the command line, logging, configuration files, enums and the record classes: thin marshalling with no property of its own.
- Values: a model-typed field holds exactly the declared class, mapping keys are text, and sets and other containers are leaves; a record built against its annotations with `model_construct` is outside the model.
- pydantic's dump is a structural map that turns records into mappings and tuples into lists; the JSON form of a leaf is a parameter, and that it refuses surrogate keys is a precondition.
- orjson: which values it refuses is a parameter of `Repairers.JsonBytesOf`; indentation and the wording of warnings are not modelled.
- TOML text is given as its lines: `str.splitlines` cuts at more characters than TOML's line ends, and that difference is not modelled.
- The regular expressions for `requires-python` and for git sources, and `_is_relative_location`, are parameters.
- Shell: the runner templates, the trailing arguments of the runner, and operators, globs, comments and other expansions, which the model's reader refuses to read; a NUL in a value is not excluded.
- PowerShell: expressions other than lists of single-quoted literals, which the model's reader refuses to read.
- PosixAcl.RequestsCommute: for ids of more than 32 bits the stronger claim, the very same list, is not made: entries are sorted before their ids are cut; `PosixAcl.AcceptedRequestsCommute` gives the same entries.
- Tree reaper: the process-group branch for other systems, the wire format, `parse_ppid`, and clocks; a round of the kill loop is one of a given list, and that the loop ends is claimed for one round at a time (`TreeReaper.Helper.KillRound`). SIGTERM is taken to arrive while the helper waits.
- TreeReaper.Helper.KillTree: a signal has no effect of its own in the model; that the processes signalled stop is a condition of the claims about an emptied tree.
- TreeReaper.Helper.WaitTree: a pid can be handed out again as soon as no process bears it or hangs under it; process groups and sessions, which keep a pid from being handed out too, are not modelled.
- TreeReaper.Helper.Run: its code and signal claims, too, hold while no pid in question is handed out again.
- POSIX ACLs: name resolution, `set_owner`, `iter_acl` and the errors of getxattr and setxattr; that the kernel refuses an ACL that is not valid is not modelled.
- Files: codec lookup, the byte-order-mark table and I/O errors; a codec is any function that encodes a concatenation as the concatenation.
- Imports: parsing Python (a source is given as its import statements), that a package directory's name could hold a dot, and the sorted order of the external names, which are a set here.
- Overrides: `coerce_value` (a value is its text), the merge into the configuration, the order of dict keys and the wording of errors.
- Account control: the other verbs, the validity rules for names (a flag), argument lists, reading the account back (a flag), and exceptions other than the two the code handles. An error text is a list of its parts.
- Known folders: choosing the home directory, reading the file and the environment.
