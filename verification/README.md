# Verified models of the loader's self-contained algorithms

This project models, in Dafny, the parts of a PS2 game loader that are algorithms rather than hardware glue, and
proves what they are for. `dafny verify dfyconfig.toml` checks everything.

| area | source | modules |
|---|---|---|
| art directory index, a lock-free cache that may say "absent" only with certainty | `src/artindex.c` | `ArtNames`, `ArtIndex`, `ArtIndexLimits` |
| configuration sets: linked list, two file syntaxes, guarded save | `src/config.c`, `src/util.c` | `ConfigStore`, `ConfigOrder`, `ConfigText`, `ConfigTable`, `ConfigLegacy`, `ConfigSections`, `ConfigLibconfig`, `ConfigRoundTrip`, `ConfigIO`, `ConfigSave`, `ConfigPersist` |
| JSON scanner and the cached achievement list | `src/achievements.c` | `Json`, `JsonObjects`, `JsonRender`, `Achievements`, `AchievementsText`, `AchievementsCache` |
| texture atlas | `src/atlas.c` | `AtlasTree`, `Atlas`, `AtlasSurface` |
| ZSO container | `pc/ziso.py` | `ZsoFormat`, `Zso`, `ZsoIO` |
| application list: identity, deduplication, hash index | `src/appsupport.c` | `AppKeys`, `AppList`, `AppLookup` |
| UTF-8 automaton, strict validator, title cleaning | `include/utf8.h`, `src/cfgtitle.c` | `Utf8`, `CfgTitle` |
| settings rewriter | `src/cuesupport.c` | `CueLines`, `CueRewrite`, `CueIO` |
| cheats: packing for the in-game menu, remembered picks | `src/cheatman.c`, `ee_core/include/igrcheats.h`, `src/cheatconfig.c` | `CheatPack`, `CheatPackIO`, `CheatPicks`, `CheatPicksStore` |
| launch history | `src/OSDHistory.c` | `History` |
| CSV catalog | `src/httpcatalog.c` | `Csv`, `CsvIO` |

How the models are built:

- Code that updates state in place is a class or a method on arrays (`ConfigStore.ConfigSet`, `AtlasSurface.Node`,
  `AppList.DedupInPlace`, `CsvIO.SplitFields`, ...), proved equal to a function of the old state; the promises are
  proved about that function. The art index is a state machine of atomic steps, because its other threads are the
  point.
- A C string is a Dafny string without its terminator. Byte-oriented formats use one character or one `byte` per byte.
- Randomness, clocks, memory exhaustion and device faults are parameters or nondeterministic choices: a run of the
  art index interleaves any number of invalidations and any file creations and deletions; a save takes a record of
  open, write, close and read faults; the history's random bit is any free bit.

Where the code does not do what its comments or its obvious reading promise, the model follows the code, and the
exact condition is proved:

- Art index: a file older than an invalidation that is still running when the query starts can be answered absent
  (`ArtIndexLimits.StaleAbsentInFlight`), and so can a file whose name starts with '.', which the sweep skips
  (`ArtIndexLimits.DotNamesAreHidden`).
- Configuration: a libconfig file is read back as libconfig exactly when its first emitted line is an identifier
  scalar (`ConfigRoundTrip.LibconfigRoundTrip`); a legacy set comes back exactly when all its entries are `Carried` and
  its first line does not look like libconfig (`ConfigLegacy.LegacySetExact`); keys of 48 characters or more no longer match themselves
  (`ConfigOrder.FoundIffShort`); damage at least as long as the snapshot is not restored
  (`ConfigSave.FailureRestores`, `ConfigSave.LongDamageStays`).
- Achievements: one game's entries never carry a hardcore mark, so the Hardcore filter shows nothing
  (`AchievementsCache.NoHardcore`).
- ZSO: the last compressed block is read with `total_bytes - read_pos` bytes, which may be too few
  (`Zso.RoundTrip`); an incompressible image just under 2 GiB is written with a wrong index entry and no complaint
  (`Zso.JustUnderTwoGigWraps`).
- Application list: the comment at `src/appsupport.c` line 362 says that trailing separators never differentiate;
  they do, unless the path already ends in one (`AppKeys.TrailingSeparator`).
- Settings: rewriting twice differs from rewriting once exactly when an unmanaged line ends in two carriage returns, or
  a wanted key is one that no line can set (`CueRewrite.RewriteIdempotent`).
- Cheat picks: a stored pick whose normal form has more than 128 characters with a space as the 128th overruns the
  normalizer's buffer (`CheatPicks.OutputFits`, `CheatPicks.OutputOverruns`); names of a table never do.
- History: among equally used records the victim is not always the oldest (`History.VictimOldestIff`), and a name over
  15 characters can be stored twice (`History.DistinctKept`); the only caller in the repository cuts names to 15
  (`History.BootName`, src/OSDHistory.c lines 276 to 289).

## Model

| member | source | states |
|---|---|---|
| `ArtNames.HashN` | src/artindex.c:99-112 | the hashing loop computes FNV-1a of the upper-cased bytes |
| `ArtNames.XorBits` | src/artindex.c:107 | the exclusive or of the hash, bit by bit: set exactly where the operands differ |
| `ArtNames.HashOfA` | src/artindex.c:99-112 | the published FNV-1a hash of "A", here also that of "a" |
| `ArtNames.HashFolds` | src/artindex.c:99-118 | names equal ignoring ASCII case have equal hashes, so a hash miss is a certain miss |
| `ArtNames.SplitRebuilds` | src/artindex.c:153-179 | directory and base put together again are the path; the base holds no separator |
| `ArtNames.SplitsWhen` | src/artindex.c:153-179 | a path is split exactly when some directory of 1 to 191 characters and some base without a slash make it up |
| `ArtNames.OutPathForm` | src/artindex.c:456-461 | the path written out for a name has the form of the stem asked for, but for a slash right after a colon |
| `ArtNames.MayHold` | src/artindex.c:385-398 | the bisection hits exactly when the sorted hashes contain the wanted one |
| `ArtNames.PictureHash` | src/artindex.c:120-129 | a picture of a base name is filed under the base's hash |
| `ArtNames.PictureNames` | src/artindex.c:120-129 | a picture of a base is that base and .png, .jpg or .jpeg, all in any letter case, and nothing else is |
| `ArtNames.LowerBound` | src/artindex.c:431-440 | finds the first picture whose hash is not below the wanted one |
| `ArtNames.FindPicture` | src/artindex.c:431-451 | returns a picture of the base exactly when one is held, a PNG when there is one |
| `ArtIndex.BuildKeeps` | src/artindex.c:184-337 | every step of naming a slot and sweeping a directory keeps the invariant |
| `ArtIndex.PublishKeeps` | src/artindex.c:300-337 | publishing a sorted listing keeps the invariant: it is made of exactly the names the sweep read, and complete for every file older than the sweep |
| `ArtIndex.AnswerKeeps` | src/artindex.c:351-466 | searching and re-checking the generation keep the invariant, which says that what the search found is the best of the names the sweep read |
| `ArtIndex.BumpKeeps` | src/artindex.c:468-482 | raising the generation keeps the invariant |
| `ArtIndex.ClearKeeps` | src/artindex.c:468-482 | clearing slots one store at a time keeps the invariant |
| `ArtIndex.WorldKeeps` | src/artindex.c:468-482 | every step of an invalidating thread or of the device keeps the invariant |
| `ArtIndex.StepKeeps` | src/artindex.c:184-482 | every step of every thread and of the device keeps the invariant |
| `ArtIndex.RunInv` | src/artindex.c:184-482 | the invariant holds in every state of every interleaving |
| `ArtIndex.AbsentStep` | src/artindex.c:400-408 | a step that answers absent about a present file leaves only invalidations in flight around the query's start |
| `ArtIndex.AbsentIsCertain` | src/artindex.c:351-482 | in every interleaving, an absent answer about a file on the device means that no invalidation newer than the file had ended before the query began or began after its generation sample |
| `ArtIndex.InvalidatedFileNeverHidden` | src/artindex.c:351-482 | a file older than an invalidation that completed before the query started is never answered absent, by either query |
| `ArtIndex.RunReads` | src/artindex.c:184-337 | in every run each name a slot is made from was read by a sweep of its directory |
| `ArtIndex.RunAnswers` | src/artindex.c:351-466 | in every run each answer is the one the names read call for: absent exactly when none can be meant and the generation did not move, a picture only if one matches and its path fits, and otherwise go and look |
| `ArtIndex.PictureIsReal` | src/artindex.c:411-461 | in every interleaving a picture answered is the directory and the name, as a sweep of that directory read it, of a picture of the asked base, and a PNG if any picture of that base in the listing is one |
| `ArtIndex.LookHasReason` | src/artindex.c:351-408 | in every interleaving artIndexMayExist says "go and look" exactly when the slot is not valid, a name read hashes like the base, or the generation moved, and otherwise "absent" |
| `ArtIndexLimits.StaleAbsentInFlight` | src/artindex.c:468-482 | a concrete run in which a file older than an invalidation still in flight is hidden |
| `ArtIndexLimits.DotNamesAreHidden` | src/artindex.c:263 | a concrete run in which a name starting with a dot is hidden with no invalidation at all |
| `ArtIndexLimits.PictureIsFound` | src/artindex.c:411-461 | a concrete run in which a file alone in its directory is found for its stem and answered under its own name |
| `ConfigStore.ConfigSet.Item` | src/config.c:256-271 | finds the first node with the key |
| `ConfigStore.ConfigSet.Add` | src/config.c:226-254 | appends one node at the tail; the list stays linked, acyclic, with tail its last node |
| `ConfigStore.ConfigSet.SetStr` | src/config.c:498-520 | changes or appends exactly one entry, raises modified exactly for a persistent key whose value changes, and keeps the list well linked |
| `ConfigStore.ConfigSet.Change` | src/config.c:505-511 | a known key takes the new value, and marks the set modified exactly when a persistent value changes |
| `ConfigStore.ConfigSet.AddNew` | src/config.c:512-517 | a new key is appended, and marks the set modified when it is persistent |
| `ConfigStore.ConfigSet.Unlink` | src/config.c:594-612 | takes one node out of the chain, repairing head or tail |
| `ConfigStore.ConfigSet.RemoveKey` | src/config.c:586-617 | removes every node with the key and nothing else, keeps the list well linked, and marks it modified exactly when a persistent entry went |
| `ConfigOrder.SetRefines` | src/config.c:498-520 | setting refines an insertion-ordered map: a known key keeps its place, a new one goes last |
| `ConfigOrder.RemoveRefines` | src/config.c:586-617 | removing refines deletion from that map |
| `ConfigOrder.RunRefines` | src/config.c:226-271 | over any run of sets and removals with keys of at most 47 characters the list is an insertion-ordered map with unique keys |
| `ConfigOrder.UnmodifiedMeansNothingToSave` | src/config.c:498-617 | over any run, if modified was never raised, the persistent entries are what they were |
| `ConfigOrder.SetMarksIff` | src/config.c:498-520 | setting a value that fits raises modified exactly when it changes what a save would write |
| `ConfigOrder.RemoveMarksIff` | src/config.c:586-617 | so does removing a key |
| `ConfigOrder.FoundIffShort` | src/config.c:226-271 | a key just set is found again exactly when it has at most 47 characters |
| `ConfigOrder.LongKeyDuplicates` | src/config.c:226-254 | setting a longer key twice stores two equal truncated keys |
| `ConfigText.LinesUnlines` | src/util.c:490-585 | the reader hands out again the plain lines a writer wrote |
| `ConfigTable.RowFound` | src/config.c:848-892 | every row of the key table is found by its foreign name, so no two rows share one |
| `ConfigTable.TableInverse` | src/config.c:884-983 | renaming a key for writing and back for reading gives the key, and its group is one the reader flattens to the same name |
| `ConfigTable.GroupSplits` | src/config.c:971-983 | a grouped name is the group, an underscore and the inner name |
| `ConfigLegacy.ReadLegacyLine` | src/config.c:164-216 | a written legacy line reads back as its entry and ends any section prefix |
| `ConfigLegacy.LegacyRoundTrip` | src/config.c:1041-1105 | a written legacy set latches legacy and reads back as its persistent entries in order |
| `ConfigLegacy.LegacySetExact` | src/config.c:126-192 | a legacy set without line breaks comes back as itself in the same format if and only if no key starts with a blank or a comment mark, no value ends in CR, and the first line does not look like libconfig |
| `ConfigLegacy.SeenAddAll` | src/config.c:1041-1105 | each line adds at most one entry; lines that add as many entries as there are were all carried |
| `ConfigLegacy.BlankNotAdded` | src/config.c:164-192 | a key with a leading blank is never what its line adds |
| `ConfigLegacy.CrNotAdded` | src/util.c:490-585 | a value ending in CR is never what its line adds |
| `ConfigLegacy.LegacyEntryExact` | src/config.c:126-192 | the same for one entry |
| `ConfigSections.ReadsLine` | src/config.c:1076-1096 | an indented assignment in a section is stored under the section name, an underscore and its key; any other under its key, ending the section |
| `ConfigSections.ReadsHeader` | src/config.c:194-216 | a header line opens the section of its name |
| `ConfigSections.UntoldIgnored` | src/config.c:1049-1101 | a malformed line changes nothing and is no evidence for libconfig |
| `ConfigSections.SectionedFile` | src/config.c:1041-1105 | the reading law of sectioned files: in order, the first assignments under their keys, each section's indented lines under name_key, and its lines from the first unindented assignment on under their keys; blanks, comments and malformed lines anywhere do not count |
| `ConfigSections.SectionedFileExact` | src/config.c:1041-1105 | when no key repeats and all fit, the set holds exactly those entries in that order |
| `ConfigSections.WrittenSections` | src/config.c:1041-1105 | the text made of such lines is read so |
| `ConfigLibconfig.UnescapeEscape` | src/config.c:795-806 | unescaping undoes escaping for every value |
| `ConfigLibconfig.ValueBack` | src/config.c:778-806 | the value parser recovers every printable value from its bare or quoted form |
| `ConfigLibconfig.ReadScalar` | src/config.c:720-827 | a written scalar line stores its value under its own key, with an empty value absent and booleans as 1 and 0 |
| `ConfigLibconfig.LatchScalar` | src/config.c:126-162 | a scalar line latches libconfig exactly when its name is an identifier |
| `ConfigRoundTrip.ReadHeader` | src/config.c:720-760 | a group header opens exactly that group |
| `ConfigRoundTrip.ReadEntry` | src/config.c:720-827 | a scalar line of a block stores its entry under its own key |
| `ConfigRoundTrip.ReadBlock` | src/config.c:985-1039 | a written group block reads back as its entries, and closes its group |
| `ConfigRoundTrip.EmittedIsSaved` | src/config.c:985-1039 | the writer emits every persistent entry exactly once, over root and groups |
| `ConfigRoundTrip.LatchExact` | src/config.c:1041-1105 | the written file latches libconfig exactly when its first line is an identifier scalar, and legacy otherwise |
| `ConfigRoundTrip.LibconfigRoundTrip` | src/config.c:720-1105 | a written libconfig set reads back as libconfig with the same map from keys to values if and only if the first emitted line is an identifier scalar |
| `ConfigIO.EscapeValue` | src/config.c:929-950 | the escaping loop writes the whole escaped value; its buffer never truncates a stored value |
| `ConfigIO.UnescapeValue` | src/config.c:795-806 | the unescaping loop computes the unescaped value, cut to the value size |
| `ConfigIO.ReadValue` | src/config.c:778-806 | the value scanner strips quotes and undoes escapes as the text model says |
| `ConfigIO.WriteLibconfigLine` | src/config.c:929-958 | the line buffer holds every line of a stored key and value whole |
| `ConfigIO.WriteLegacy` | src/config.c:1514-1525 | writes one line per persistent entry in order |
| `ConfigIO.WriteScalars` | src/config.c:985-1039 | one pass over the list writes the scalars of one group |
| `ConfigIO.WriteLibconfig` | src/config.c:985-1039 | root scalars, then the non-empty group blocks |
| `ConfigIO.ApplyLegacy` | src/config.c:1076-1101 | a legacy line updates the list and the prefix as the text model says, whose reading of sections is `ConfigSections.ReadsLine` |
| `ConfigIO.ApplyLibconfig` | src/config.c:720-827 | a libconfig line updates the list and the group as the text model says |
| `ConfigIO.ReadFileBuffer` | src/config.c:1041-1105 | latches the format from the first meaningful line and stores every entry |
| `ConfigSave.ChunksAreTheText` | src/util.c:587-641 | the buffered writer's chunks joined are exactly the text queued, none empty |
| `ConfigSave.FileBuffer.Add` | src/util.c:587-612 | queueing text flushes first when it would not fit, and records any short write |
| `ConfigSave.FileBuffer.Close` | src/util.c:614-641 | closing reports success only if every write was whole and the close worked |
| `ConfigSave.AttemptProves` | src/config.c:1495-1583 | an attempt that reports success left exactly the intended bytes |
| `ConfigSave.StillBufferedIff` | src/util.c:587-612 | nothing is written before the close exactly when the whole text fits the 4096-byte buffer |
| `ConfigSave.SavesExactly` | src/config.c:1420-1624 | a save writes exactly when the set is modified, or populated with its file not found, and the target is neither missing nor on a raw APA partition; it then succeeds exactly when no call of it fails, or when, off memory cards and PFS, the read-back of a text no larger than the buffer finds all bytes there |
| `ConfigSave.FaultFreeSaves` | src/config.c:1479-1590 | to every such target a save without faults writes the text, clears modified and succeeds |
| `ConfigSave.SavedMeansWritten` | src/config.c:1420-1624 | under any faults, success after an attempt means the file holds exactly the intended bytes and modified is cleared |
| `ConfigSave.FailureKeepsModified` | src/config.c:1420-1624 | a failed save leaves modified set, and a save that attempts nothing leaves the file alone |
| `ConfigSave.FailureRestores` | src/config.c:1592-1617 | after a failed attempt with a snapshot and a restore that opens, writes and closes, the file is no shorter than the snapshot, and is the snapshot exactly when it had become shorter or was never changed |
| `ConfigSave.FailureWithoutSnapshot` | src/config.c:1479-1617 | a failed attempt without a snapshot leaves what the open, the writes and the close left |
| `ConfigSave.LongDamageStays` | src/config.c:1604 | damage at least as long as the snapshot stays |
| `ConfigSave.TryWrite` | src/config.c:1495-1583 | open, buffered writes and close on a device behave as the attempt does |
| `ConfigSave.WriteBack` | src/config.c:1604-1609 | the restore leaves the old bytes, a part of them, an emptied file or a wreck, as its faults say |
| `ConfigSave.ConfigWrite` | src/config.c:1420-1624 | for whatever strings are queued, result, flag and file are as the save specification says, whose attempts and successes are those of `ConfigSave.SavesExactly` |
| `ConfigPersist.CallsAreTheText` | src/config.c:985-1039 | the strings handed to the buffered writer are, joined, the lines of the set each ended by LF |
| `ConfigPersist.SaveThenLoad` | src/config.c:1041-1624 | under any faults, a save that reports success after an attempt left the set's own text, which is read back in the same format with the same map when the syntax can carry the set |
| `ConfigPersist.FaultFreeSaveReadsBack` | src/config.c:1420-1624 | a fault-free save of a dirty set, to any file but one on a raw APA partition, writes its text, which reads back as the set when its syntax carries it |
| `ConfigPersist.SaveConfig` | src/config.c:1420-1624 | formatting a linked list and saving it: success after an attempt means that the file is the set's own text and reads back as it; a dirty set saved without faults is so written and modified is cleared |
| `Json.SkipValue` | src/achievements.c:237-263 | on every JSON value, after any whitespace, the skip ends exactly after it, or at the next delimiter for a bare scalar |
| `Json.SkipInside` | src/achievements.c:237-263 | inside containers every value is passed over whole, to any depth |
| `Json.StringEndAt` | src/achievements.c:174-234 | the scan of a well-formed string ends at its closing quote |
| `JsonRender.RenderMatched` | src/achievements.c:143-290 | every well-formed value has a text, and that text is matched wherever it stands |
| `JsonObjects.PutUtf8Encodes` | src/achievements.c:151-170 | code points are written as their UTF-8 encodings |
| `JsonObjects.HexIsTheCode` | src/achievements.c:192-206 | four hexadecimal digits in either case are decoded as the UTF-8 of the code they denote, or as ? for half a surrogate pair |
| `JsonObjects.ShortStandsFor` | src/achievements.c:184-209 | of the short escapes, quote, backslash and slash stand for themselves and the control characters for a space |
| `JsonObjects.DecodeAt` | src/achievements.c:174-234 | decoding a well-formed string gives the text of its units, never splitting one at the end of the buffer, and ends where the scan without a buffer ends |
| `JsonObjects.WalkAt` | src/achievements.c:267-290 | the member loop visits each member once, in order, with its decoded key and the position of its value |
| `JsonObjects.ObjectAt` | src/achievements.c:267-290 | the object walk does so on every object, empty or not, after any whitespace |
| `JsonObjects.CalledIsWalk` | src/achievements.c:267-290 | the callbacks of a walk that succeeds are the callbacks made |
| `Achievements.ValueInt` | src/achievements.c:292-297 | reading a number in place is reading its own text, whose value is `AchievementsText.NumberRead`; other values read as 0 |
| `Achievements.EntryAt` | src/achievements.c:306-328 | folding the entry callback over an object is reading the entry off its members |
| `Achievements.RootAt` | src/achievements.c:330-341 | folding the root callback finds title, totals and the last list under the list's key |
| `Achievements.ItemsAt` | src/achievements.c:359-374 | the element loop keeps the entries with a positive id up to 1024, and fails at an element that is not an object |
| `Achievements.CollectIsFirst` | src/achievements.c:359-374 | over objects only, what is kept is exactly the first 1024 entries with a positive id |
| `Achievements.DocumentParsed` | src/achievements.c:344-385 | on every JSON object document the parse succeeds or fails, and keeps, exactly what its tree says |
| `Achievements.DocumentCached` | src/achievements.c:344-385 | with a list of objects the cache holds exactly the first 1024 entries with a positive id, in order |
| `AchievementsText.NumberRead` | src/achievements.c:292-297 | a scalar that starts with the decimal rendering of m reads as the lesser of m and ten million |
| `AchievementsText.NegativeRead` | src/achievements.c:292-297 | a negative number reads as 0 |
| `AchievementsText.TextWhole` | src/achievements.c:174-234 | a string that fits its buffer is decoded whole |
| `AchievementsText.TextLong` | src/achievements.c:174-234 | no buffer is overrun, and one not filled up to its last four bytes took its string whole |
| `AchievementsText.KeyName` | src/achievements.c:267-290 | cutting a key to its 32 bytes never makes it one of the names looked for |
| `AchievementsText.EntryFields` | src/achievements.c:306-328 | id, points, title and description of an object are what the last members of those names say |
| `AchievementsText.GameFields` | src/achievements.c:306-328 | so are a library entry's totals |
| `AchievementsText.SetFields` | src/achievements.c:321-324 | one game's entry is earned exactly when its date is not empty |
| `AchievementsText.RootList` | src/achievements.c:330-341 | the list is the last array under "games" or "achievements", as the kind asks |
| `AchievementsText.RootFields` | src/achievements.c:330-341 | one game's title and totals are what the last members of their names say |
| `AchievementsText.DescribedIsRead` | src/achievements.c:306-328 | an object with decimal numbers and strings that fit, which describes an entry, is read as that entry |
| `AchievementsText.DescribedDocument` | src/achievements.c:344-385 | a document that describes a list of entries so fills the cache with exactly those that have an id, up to the first 1024 |
| `AchievementsCache.SkipBlanks` | src/achievements.c:143-148 | the loop ends after the whitespace |
| `AchievementsCache.ScanString` | src/achievements.c:174-234 | the loop without a buffer finds the end of the string, or that there is none |
| `AchievementsCache.DecodeString` | src/achievements.c:174-234 | the loop with a buffer gives text and end, on malformed input too |
| `AchievementsCache.SkipAny` | src/achievements.c:237-263 | the loop with a depth counter computes the nested skip |
| `AchievementsCache.ScanMembers` | src/achievements.c:276-289 | the loop finds the end, if there is one, and makes the specified callbacks also when it then fails |
| `AchievementsCache.ScanObject` | src/achievements.c:267-290 | the whole object walk, with its callbacks also on failure |
| `AchievementsCache.ScanItems` | src/achievements.c:359-374 | the element loop computes the parsed list |
| `AchievementsCache.Cache.Parse` | src/achievements.c:344-385 | success replaces list and kind by what the document says; failure keeps them; title and totals are in any case those of the root members met, a library's totals the sums over its entries |
| `AchievementsCache.Cache.ServePage` | src/achievements.c:389-409 | a page is three of the entries the filter shows, from position 3 * page on, with their number as total |
| `AchievementsCache.PagesAre` | src/achievements.c:389-409 | the pages one after another are the shown entries: none lost, none repeated |
| `AchievementsCache.FiltersShow` | src/achievements.c:400-402 | one game's filters show earned entries only and locked ones only; filter 0 and a library show everything |
| `AchievementsCache.EarnedAndLockedSplit` | src/achievements.c:400-402 | every entry is shown by exactly one of the Earned and Locked filters |
| `AchievementsCache.NoHardcore` | src/achievements.c:321-322 | whatever document is parsed as one game's set, no entry carries a hardcore mark, and the Hardcore filter shows nothing |
| `AtlasTree.Cut` | src/atlas.c:56-69 | the area taken and the two pieces left lie in the box and are disjoint, and the thicker strip spans the whole side |
| `AtlasTree.PruneSound` | src/atlas.c:52-54 | a subtree whose box is too small holds no free box that fits |
| `AtlasTree.PlaceIsFirstFit` | src/atlas.c:50-83 | the pruned tree search is first fit over the list of free boxes |
| `AtlasTree.FailsOnlyWhenFull` | src/atlas.c:50-83 | first fit fails exactly when no free box fits |
| `AtlasTree.ApartKept` | src/atlas.c:56-72 | free boxes stay pairwise disjoint, and what is taken is disjoint from all that is left |
| `AtlasTree.ClearKept` | src/atlas.c:56-72 | what was disjoint from the free boxes stays so, and from what is taken next |
| `AtlasTree.AreaKept` | src/atlas.c:56-72 | no area is lost |
| `Atlas.BlitShows` | src/atlas.c:156-177 | after the row copies the buffer holds the glyph's bytes in their places |
| `Atlas.BlitFrame` | src/atlas.c:156-177 | bytes outside the glyph's rectangle keep their values |
| `Atlas.StepKeeps` | src/atlas.c:179-194 | every placement, successful or not, keeps all glyphs inside, apart, shown, and the area conserved |
| `Atlas.RunKeepsGlyphs` | src/atlas.c:179-194 | after any sequence of placements glyphs are inside, separated by a one-pixel gutter, all still shown, and reserved plus free area is the whole atlas |
| `Atlas.PixelBytes` | src/atlas.c:137-153 | a pixel of a known format takes the bytes the GS stores it in, at least one |
| `Atlas.RunShowsPixels` | src/atlas.c:156-194 | after any run on a surface of a known format every pixel of every placed glyph, at least one byte each, stands in its place |
| `Atlas.TurnedAwayIffFull` | src/atlas.c:179-187 | a glyph is turned away exactly when no free box has room for it and its gutter |
| `AtlasSurface.Node.AllocPlace` | src/atlas.c:50-83 | the recursive search mutates the tree exactly as the specification says and returns the node taken |
| `AtlasSurface.Surface.constructor` | src/atlas.c:85-120 | a new atlas is one free node over a zeroed surface |
| `AtlasSurface.Surface.CopyData` | src/atlas.c:156-177 | the row loop writes the glyph into the linear buffer in bytes, in bounds, for every pixel size |
| `AtlasSurface.Surface.AtlasPlace` | src/atlas.c:179-194 | tree, surface and glyphs change as the run specification says; a null bitmap changes nothing |
| `ZsoFormat.LeRoundTrip` | pc/ziso.py:107-118 | little-endian fields read back |
| `ZsoFormat.HeaderRoundTrip` | pc/ziso.py:107-118 | a packed header reads back field by field, whatever follows it |
| `ZsoFormat.MarkBack` | pc/ziso.py:157-160 | plain bit and position come back from an index entry exactly when the position is below 2^31 |
| `ZsoFormat.StripPadded` | pc/ziso.py:62-71 | padding after a compressed block is stripped and the block recovered |
| `ZsoFormat.StripShort` | pc/ziso.py:62-71 | a compressed block cut short is not recovered |
| `Zso.StoredPadded` | pc/ziso.py:208-214 | between a block's position and the next one's stand the block and bytes of padding only |
| `Zso.PosAligned` | pc/ziso.py:208-214 | block positions are whole alignment units, so the shifted index loses nothing |
| `Zso.HeaderInFile` | pc/ziso.py:223-232 | a written file starts with the format's magic number, its header size, the image size, the block size, version 1 and one alignment bit per 2 GiB |
| `Zso.BlockInFile` | pc/ziso.py:285-302 | behind a marked index entry stands the block itself if compressing it gains too little for the threshold, and behind an unmarked one its compressed form if not |
| `Zso.ForeignRefused` | pc/ziso.py:130-137 | a file with another magic number, header size or version, or with no size or block size, is refused |
| `Zso.CompressedTooFar` | pc/ziso.py:293-302 | a compressed block at or beyond 2^31 units stops the compressor |
| `Zso.ReadLast` | pc/ziso.py:162-171 | a compressed last block comes back exactly when its read size covers it or is -1 |
| `Zso.RoundTrip` | pc/ziso.py:130-319 | for a written file with positions in range, decompression gives back the whole blocks of the image if and only if the last block is plain or its read size covers it or is -1 |
| `Zso.WholeImageRoundTrip` | pc/ziso.py:130-319 | an image of whole blocks comes back unchanged under the same condition |
| `Zso.SmallEnoughSuffices` | pc/ziso.py:217-319 | 24 + 4(n+1) + total + n(2^align - 1) <= 2^(31+align) suffices: nothing is refused and every position is in range |
| `Zso.PlainWraps` | pc/ziso.py:293-302 | a plain block at or beyond 2^31 units is not refused and is indexed 2^31 units too early |
| `Zso.JustUnderTwoGigWraps` | pc/ziso.py:226-228 | so is the last block of an incompressible image just under 2 GiB |
| `ZsoIO.SetAlign` | pc/ziso.py:208-214 | pads to the next alignment unit |
| `ZsoIO.Lz4Decompress` | pc/ziso.py:62-71 | drops trailing bytes until the rest decompresses |
| `ZsoIO.CompressZso` | pc/ziso.py:217-319 | the loop and the rewritten index produce exactly the specified file, or fail exactly on an align error or an unpackable field |
| `ZsoIO.DecompressZso` | pc/ziso.py:130-194 | the header test, the index and the block loop compute the specified output or failure |
| `AppKeys.StartupKeyEqual` | src/appsupport.c:332-370 | the two-cursor loop decides equality of normal forms of non-empty paths |
| `AppKeys.SameAppIsPartialEquivalence` | src/appsupport.c:332-370 | the relation is symmetric and transitive, and reflexive exactly on non-empty paths |
| `AppKeys.NormIdempotent` | src/appsupport.c:347-369 | normalizing changes no identity and nothing the second time |
| `AppKeys.CaseAndSlashes` | src/appsupport.c:347-359 | paths that differ only in letter case and in the kind of separator are the same; among paths without two separators in a row only those are |
| `AppKeys.RunsAreAlike` | src/appsupport.c:361-368 | anywhere in a path one run of separators may stand for another |
| `AppKeys.TrailingSeparator` | src/appsupport.c:361-368 | a path and the path with any run of separators added are the same exactly when the path already ends in one |
| `AppKeys.TrailingSeparatorDiffers` | src/appsupport.c:361-368 | a concrete pair that the comment calls equal and the code does not |
| `AppList.DedupKeeps` | src/appsupport.c:383-413 | exactly the legacy records and the scanned ones with no earlier equal are kept, in order, unchanged but for the first donated argument |
| `AppList.LegacyKeepsIndex` | src/appsupport.c:383-413 | on a legacy-then-scanned list every legacy record keeps its index and its other fields |
| `AppList.DroppedHasSurvivor` | src/appsupport.c:383-413 | every record with a startup has an equal survivor |
| `AppList.ScannedAreDistinct` | src/appsupport.c:383-413 | no scanned survivor equals an earlier survivor |
| `AppList.Turn` | src/appsupport.c:389-411 | one record is dropped with its argument donated, or moved up behind the kept ones |
| `AppList.DedupInPlace` | src/appsupport.c:383-413 | the in-place compaction computes it and leaves the rest of the array alone |
| `AppLookup.Inserted` | src/appsupport.c:567-579 | putting a record into the first empty slot keeps every record findable behind earlier ones only |
| `AppLookup.MaskIsMod` | src/appsupport.c:573-575 | masking with a power of two less one is the remainder |
| `AppLookup.ProbeIsScan` | src/appsupport.c:584-608 | for a non-empty startup probing ends at the least index with it, or empty-handed exactly when there is none |
| `AppLookup.EmptyNeverProbed` | src/appsupport.c:570-571 | a record without a startup is never found through the table |
| `AppLookup.Apps.BuildLookup` | src/appsupport.c:544-582 | builds a table that is valid for the list, its size a power of two, with every probing loop ending |
| `AppLookup.Apps.Probe` | src/appsupport.c:589-600 | the probing loop ends, at the first match or empty slot |
| `AppLookup.Apps.LookupByStartup` | src/appsupport.c:584-608 | the lookup is the linear scan for every startup, with or without a table |
| `Utf8.Follows` | include/utf8.h:21-36 | the table as ranges of lead and continuation bytes |
| `Utf8.AcceptsExactly` | include/utf8.h:21-49 | the automaton first accepts at a position with a code point exactly when the bytes up to there are that code point's encoding |
| `Utf8.AutomatonIsUtf8` | include/utf8.h:21-49 | it accepts exactly the well-formed strings of section 4 of RFC 3629, and yields their code points |
| `Utf8.Decoder.Feed` | include/utf8.h:38-49 | one step updates state and code point from the table |
| `Utf8.DecodeString` | include/utf8.h:38-49 | feeding a string byte by byte collects the code points of a well-formed string |
| `CfgTitle.Length` | src/cfgtitle.c:72-98 | the validator returns k > 0 exactly when the automaton first accepts after k available bytes with a code point outside U+0080..U+009F |
| `CfgTitle.CleanIsText` | src/cfgtitle.c:117-129 | what is copied is the encoding of printable code points, whole characters only |
| `CfgTitle.CleanIsPrefix` | src/cfgtitle.c:100-131 | a cleaned title is a whole-character prefix of the trimmed input that fits, all of it unless its next character would not fit |
| `CfgTitle.TrimmedIs` | src/cfgtitle.c:110-115 | exactly the spaces and tabs around a text are trimmed |
| `CfgTitle.CleanExactly` | src/cfgtitle.c:100-131 | there is a title if and only if every character the copy reaches is a printable one in UTF-8 and the first fits |
| `CfgTitle.TitleIsCut` | src/cfgtitle.c:117-130 | every title of printable characters, of any length in bytes, is accepted if its first one fits, and is cut after the last that fits |
| `CfgTitle.TitleIsKept` | src/cfgtitle.c:117-130 | one that fits is taken whole |
| `CfgTitle.TitleClean` | src/cfgtitle.c:100-131 | the loops compute the cleaned title, and there is one exactly under the condition of `CfgTitle.CleanExactly` |
| `CueLines.WrittenSets` | src/cuesupport.c:490-512 | a written line of a plain key, blanks inside allowed, sets that key up to case and no other plain key |
| `CueLines.OwnLine` | src/cuesupport.c:490-512 | a written line sets its own key exactly when the key is not empty and starts with neither a blank nor a comment mark |
| `CueLines.SetsExactly` | src/cuesupport.c:490-512 | a line sets a key if and only if the key can be set at all and the line is blanks, the key in any letter case, blanks and a colon |
| `CueRewrite.RewrittenLines` | src/cuesupport.c:531-587 | the lines of the rewritten text are the unmanaged lines in order, less one trailing CR each, and the wanted ones |
| `CueRewrite.KeptByPosition` | src/cuesupport.c:531-566 | by position: the lines that stay are exactly those that set no wanted key, in order, less one trailing CR each |
| `CueRewrite.WantedAt` | src/cuesupport.c:567-587 | for every wanted value there is an added line of the key, a colon and the value |
| `CueRewrite.OneLinePerValue` | src/cuesupport.c:514-587 | exactly one line sets a key with a wanted value, and none a removed one, if and only if the key can be set and no other wanted line sets it |
| `CueRewrite.PlainKeysAreAlone` | src/cuesupport.c:514-587 | plain keys that differ by more than case meet that condition whatever their values are |
| `CueRewrite.RewriteIdempotent` | src/cuesupport.c:514-587 | rewriting twice is rewriting once if and only if no unmanaged line ends in two carriage returns and the rewriter recognises the lines it adds |
| `CueRewrite.GoodStartRecognised` | src/cuesupport.c:490-512 | it recognises them for all keys that a line can set |
| `CueIO.LineSetsKey` | src/cuesupport.c:490-512 | the scan decides whether a line sets a key |
| `CueIO.RewriteSettings` | src/cuesupport.c:514-587 | the buffer holds the rewritten text, or the result is -1 exactly when it does not fit |
| `CheatPack.LaidFits` | src/cheatman.c:577-606 | the page fits its room and the menu's limits |
| `CheatPack.TickedIsListed` | src/cheatman.c:592-603 | every ticked cheat that has real codes has its row, with its codes, when nothing was refused |
| `CheatPack.RowsAreCheats` | src/cheatman.c:613-630 | every row is a cheat's: its real codes, its tick, its name |
| `CheatPack.RealByPosition` | src/cheatman.c:560-574 | by position: a row carries, in order, the codes before the first address 0 except those at 0x90000000 to 0x91FFFFFF that do not follow a line of type 3 or 4 |
| `CheatPack.AllTaken` | src/cheatman.c:577-606 | when counts and size are within the limits every cheat with real codes, ticked or not, has its row |
| `CheatPack.AllFitIsPacked` | src/cheatman.c:583-642 | and the file is packed |
| `CheatPack.PackedPage` | src/cheatman.c:583-642 | the surviving ticks are exactly those before one cut point, fit one set, and the cut is as late as it can be |
| `CheatPack.EngineRunsWhatRowsSay` | ee_core/include/igrcheats.h:55-71 | from a packed page the engine builds the codes of all rows that say they are on, leaving none out |
| `CheatPackIO.CountReal` | src/cheatman.c:560-574 | counts the codes that are not hooks |
| `CheatPackIO.CountRows` | src/cheatman.c:592-603 | the counting walk gives the page's size, or stops exactly at a ticked cheat that is refused |
| `CheatPackIO.WriteRows` | src/cheatman.c:612-630 | the writing walk takes the same rows, writes only inside the counted room, and fills it |
| `CheatPackIO.TakeTicksOff` | src/cheatman.c:632-640 | the loop takes off exactly the ticks from the cut on |
| `CheatPackIO.Pack` | src/cheatman.c:583-642 | returns 0 or the size of the specified page, at most the room |
| `CheatPicks.NormIdempotent` | src/cheatconfig.c:19-41 | a table's names are never cut, come out in normal form, and are then fixed |
| `CheatPicks.FullIsWords` | src/cheatconfig.c:19-41 | the full normal form of any words and white space is the words in lower case with one space between them |
| `CheatPicks.OutputFits` | src/cheatconfig.c:19-41 | the output is the full normal form cut at 128 characters, or at 129 when the 128th is a space; output and terminator stay inside the 129 bytes if and only if the full form is not that long with a space there |
| `CheatPicks.ShortNamesFit` | src/cheatconfig.c:19-41 | names of at most 128 characters always fit |
| `CheatPicks.OutputOverruns` | src/cheatconfig.c:28-40 | 127 letters, a space and a letter leave 129 characters before the terminator |
| `CheatPicks.RestoreCounts` | src/cheatconfig.c:83-88 | one saved name turns on one more cheat of that name unless all are on, and none of any other |
| `CheatPicks.LoadRestores` | src/cheatconfig.c:63-91 | loading into any table turns on as many cheats of each optional name as were saved, or all there are |
| `CheatPicks.LoadRestoresAll` | src/cheatconfig.c:63-91 | into a permuted or extended table, exactly as many |
| `CheatPicks.MastersStayOn` | src/cheatconfig.c:72-74 | master codes are on after every load |
| `CheatPicks.DistinctRestoredExactly` | src/cheatconfig.c:63-91 | with distinct names each cheat, wherever it now stands, is on exactly when it was |
| `CheatPicksStore.SavedIsRead` | src/cheatconfig.c:93-112 | exactly the names just saved are read back, whatever was stored before |
| `CheatPicksStore.OthersKept` | src/cheatconfig.c:93-112 | no other key of the set changes |
| `CheatPicksStore.SaveThenLoad` | src/cheatconfig.c:63-112 | saving into a configuration set and loading from it restores as many cheats of each optional name |
| `CheatPicksStore.Normalize` | src/cheatconfig.c:19-41 | the loops compute the normal form |
| `CheatPicksStore.LoadSelections` | src/cheatconfig.c:63-91 | resets the table and restores the stored picks in place |
| `CheatPicksStore.SaveSelections` | src/cheatconfig.c:93-112 | clears the numbered keys and stores the picks in the linked list |
| `History.FreeBit` | src/OSDHistory.c:196-202 | whenever a random bit is drawn there is a free one |
| `History.VictimIsLeastUsed` | src/OSDHistory.c:173-183 | the scan's victim has the smallest launch count |
| `History.VictimOldestIff` | src/OSDHistory.c:173-183 | it is the oldest of these exactly when the first of them is, or one is older than every record before the first that was no more used than all before it |
| `History.CarriedStamp` | src/OSDHistory.c:173-183 | the date the scan carries is the oldest among the records that were least used when it met them |
| `History.VictimNeedNotBeOldest` | src/OSDHistory.c:173-183 | a concrete history in which it is not |
| `History.DistinctKept` | src/OSDHistory.c:173-260 | a launch keeps names distinct if and only if no name over 15 characters collides, once cut, with a record that stays |
| `History.PlacedDistinct` | src/OSDHistory.c:239-258 | putting a record into a slot keeps names distinct exactly when no other slot holds its name |
| `History.LongNameRepeats` | src/OSDHistory.c:186-258 | a longer name launched twice on an empty history is there twice |
| `History.EvictedIsLeastUsed` | src/OSDHistory.c:224-260 | a record disappears only when there is no blank slot, and then it is a least used one |
| `History.ShapeStep` | src/OSDHistory.c:186-215 | one more launch takes a record from the shape for n launches to that for n + 1 |
| `History.RunShapes` | src/OSDHistory.c:173-260 | in every run from an empty history each record has launch count min(n, 63), one bit plus one per threshold 14, 24, ..., 54 reached, and shift amount 7 exactly when n >= 64 |
| `History.RunDistinct` | src/OSDHistory.c:173-260 | in every run without such a collision names stay distinct |
| `History.LaunchIsDated` | src/OSDHistory.c:186-258 | records of the launched name carry its date and no others change; a new name is entered in one slot with that date and count 1, unless all records are settled |
| `History.RunDates` | src/OSDHistory.c:173-260 | in every run of names that fit a record each record carries the date of the last launch of its name |
| `History.BootName` | src/OSDHistory.c:266-289 | the names the program passes have at most 15 characters |
| `History.BootNameOf` | src/OSDHistory.c:266-289 | for a file in a directory that name is the file's own, without its version, cut to 15 |
| `History.PathRunDistinct` | src/OSDHistory.c:266-298 | so over any run of launches by path names stay distinct |
| `History.UpdateAndScan` | src/OSDHistory.c:173-216 | the scan updates the records of the name and finds the victim |
| `History.AddRecord` | src/OSDHistory.c:173-260 | one launch in place is one step of the history, and what it evicts is the victim |
| `Csv.UnquoteDoubled` | src/httpcatalog.c:40-62 | unquoting undoes the doubling of quotes |
| `Csv.WrittenIsRead` | src/httpcatalog.c:27-91 | one to four fields, quoted or bare, joined by commas come back exactly; more are refused |
| `Csv.ReadIsWritten` | src/httpcatalog.c:27-91 | every accepted line is some fields, quoted or bare, joined by commas, and yields their texts |
| `Csv.AcceptedExactly` | src/httpcatalog.c:27-91 | a line is accepted if and only if it is one to four such fields |
| `Csv.PlainLine` | src/httpcatalog.c:22-26 | a line where no field starts with a quote splits exactly at its commas |
| `CsvIO.UnquoteInPlace` | src/httpcatalog.c:42-62 | the write cursor never passes the read cursor, and nothing outside the field is touched |
| `CsvIO.SplitFields` | src/httpcatalog.c:27-91 | in place, the fields found are exactly those of the specification, each a terminated string in the buffer, or the same rejection |

## Left out

- ArtIndex.BumpKeeps: takes the increment of the generation counter as one atomic step although any thread may run it; two racing increments that lose one would let a query miss an invalidation that began after its sample.
- `src/artindex.c`: wrap-around of the 32-bit generation counter, and memory exhaustion beyond the choice of whether a sweep keeps its names; `qsort` is taken as any sorted permutation.
- `src/config.c`: theme and colour values, IP migration, carry-over paths and the global set table; `configReadMulti` and its callers.
- ConfigText.LinesUnlines: leaves out the line reader's 4096-byte buffer and its refills, embedded NUL bytes and the byte order mark; a file is the sequence of its lines.
- ConfigStore.ConfigSet.SetStr: null arguments, which the source answers with 0.
- ConfigSave.FailureRestores: states the outcome when the restore open, write and close work; with a failing restore the file is what `ConfigSave.WriteBack` says.
- ConfigSave.ConfigWrite: creation of missing directories and the notification around the write; the strings are a parameter here, and those of a set in `ConfigPersist.SaveConfig`.
- AchievementsCache.DecodeString: the bytes a failed decode has already put into the buffer; a field whose string is malformed is modelled as empty.
- AchievementsCache.Cache.Parse: a title whose string is malformed is modelled as empty.
- `src/achievements.c`: network, sockets, game identification and the older line-based reply parser.
- AtlasSurface.Surface.constructor: takes the texture size as width times height times pixel size; memory exhaustion in `allocNew` and overflow of width + 1 are assumed away.
- `pc/ziso.py`: the LZ4 codec itself is abstract (`ZsoFormat.Good`), multiprocessing mode, progress output, and padding characters of more than one byte.
- ZsoFormat.StripShort: rests on the assumption that a cut LZ4 block does not decompress to the whole one.
- `src/appsupport.c`: dialogs, launch flow, scanning and title files; the art fields of a record.
- CfgTitle.TitleClean: the unterminated bytes left in the output buffer when 0 is returned.
- CueRewrite.RewrittenLines: wanted keys and values hold no line feed, since a line feed in them would be several lines.
- CueIO.RewriteSettings: null and negative arguments, which the source answers with -1; reading and writing the settings file; PS1 twin handling.
- `src/cheatman.c`: the text parser of cheat files and `set_cheats_list_live`'s hook list.
- CheatPackIO.WriteRows: the byte layout inside a row; rows and codes are arrays of the counted sizes.
- CheatPicksStore.Normalize: for a text outside the condition of `CheatPicks.OutputFits` the source writes past its buffer, and the model gives the characters it would hold.
- CheatPicksStore.LoadSelections: for stored picks outside that condition the same holds.
- CheatPicksStore.SaveSelections: memory exhaustion while storing a pick.
- History.AddRecord: loading, saving and appending to the old-history file; the calendar arithmetic of the date stamp.
- `src/httpcatalog.c`: `httpCheckPath`, trimming and row assembly, which would only add easy members.
- Everything else in the repository: GUI, device drivers, kernel and RPC glue.
