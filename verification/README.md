# Models of build tools and base classes of the Thunderbird tree

This project models ten components and proves what they are for. Every model follows the code branch by
branch; where the code does not do what its comments or its callers expect, the model keeps the code as it is,
and a lemma says exactly when it does. `Basics.dfy` holds the two declarations that most of them share.

- **Overwriting zip files** (`MozZip.dfy`, `PackedZip.dfy`, on `BinaryFile.dfy`, `ZipStruct.dfy`, `ZipFormats.dfy`, `Sorting.dfy`):
  `ZipFile.writestr` and `close` over a file with a cursor, a list of entries, a list of retired entries and a name
  index. A reader finds through the directory the plain map that the calls describe, and close
  leaves no dead records behind.
- **Jar optimizer** (`OptimizeJar.dfy`, `OptimizeJarTool.dfy`): parsing, reordering by a log, stripping, the layout
  with the directory in front, and putting a jar back. The first file is the specification and its theory, the second
  the loops that compute it.
- **String table collector for ELF** (`ElfStrings.dfy`, `ElfHole.dfy`, `ElfReloc.dfy`, `ElfFinish.dfy`, `DynamicSection.dfy`,
  `LittleEndian.dfy`): a new string table and its references, the hole it leaves, the relocations, the move of the file,
  and all of it taken together. 32-bit arithmetic wraps as in C.
- **Preprocessor** (`Preprocessor.dfy`): the line machine with one counter and a stack, against conditional trees.
- **ConfigObj** (`ConfigFile.dfy`, `Interpolation.dfy`): the section parser and the writer, which are inverse to each
  other; string interpolation, which is recursive substitution with an exact test for substitution that never ends.
- **Startup cache** (`StartupCache.dfy`): main thread, timer and writer thread as interleaved steps.
- **Linked lists** (`LinkedList.dfy`, `ListSanity.dfy`, `FiniteWalk.dfy`): pointer rings on the heap, several at a time,
  and the debug check on arbitrary graphs.
- **Reference counting** (`RefPtr.dfy`): counts, holders and deletion with the members of deleted objects.
- **Bloom filter** (`BloomFilter.dfy`): saturating counters under histories of adds and removes.
- **makedep** (`MakeDepend.dfy`): reading the include graph and printing dependencies on any graph.

## What the code does not do

- `MozZipFile.py` treats the last listed entry as the last in the file. An archive opened from a directory in another
  order loses a member when that entry is overwritten (`MozZip.WriteStepValidIff`,
  `MozZip.UnsortedDirectoryLosesMember`). From the first call on the list is sorted.
- `optimizejars.py` counts directory entries named in the log as reordered although it drops them, so a log that names
  one does not come back (`OptimizeJar.LogRoundTrip`, `OptimizeJar.DirectoryLogLost`).
- `elf-dynstr-gc.c` can set the section size of the string table below its contents when padding follows the old table
  (`ElfHole.DynstrHeader`, `ElfHole.DynstrHeaderTooSmall`); the size in the dynamic section is right. Its test for
  overlapping relocation tables looks at one end only (`ElfReloc.ProcessedOnceIff`, `ElfReloc.OverlapProcessedTwice`).
  It does not shift DT_SYMTAB, DT_DEBUG, DT_INIT_ARRAY, DT_FINI_ARRAY, DT_PREINIT_ARRAY and DT_GNU_HASH
  (`ElfReloc.DynamicFollows`, `ElfReloc.InitArrayLeftBehind`).
- `Preprocessor.py` prints a warning at a second else and goes on as if the conditional had ended: what follows is output
  whichever branch was taken (`Preprocessor.SecondElse`).
- `configobj.py` leaves a key in the list of its old kind when item assignment changes a scalar into a section or back
  (`ConfigFile.SetItemConsistentIff`, `ConfigFile.KindChanged`). A `DEFAULT` that is no section leaves interpolation switched off
  (`Interpolation.Engine.FetchKey`, `Interpolation.ScalarDefault`). A popped key that refers to one of the same name in
  a parent section of the same name is taken for a loop (`Interpolation.Engine.Pop`, `Interpolation.PoppedNameClash`).
- `StartupCache.cpp` hides entries still in the table after a write whose zip did not open, until the next put
  (`StartupCache.GetFinds`, `StartupCache.HiddenPutIsNotFound`); an id put a second time gets its old bytes back on the
  next write (`StartupCache.PutAgainSeenIff`, `StartupCache.PutAgainIsLost`).
- `LinkedList.h`: `debugAssertIsSane` never compares the sentinel's own `prev` with the last element
  (`ListSanity.SaneIff`, `ListSanity.Missed`).
- `RefPtr.h`: its comment allows a callee to leave an out-parameter as it was "as long as the callee obeys the COM
  discipline"; without the added reference the holder dangles exactly if it was the only owner (`RefPtr.Heap.ByRef`). An
  assignment releases the old object before it writes, so the write is to freed memory when the release deletes the
  object the holder is in (`RefPtr.Heap.Assign`, `RefPtr.OwnMemberOnly`).

## Model

| member | source | states |
|---|---|---|
| MozZip.NewRecordBytes | comm-release/mozilla/config/MozZipFile.py:123-123 | a record written has the bytes section 4.3.7 of the APPNOTE gives a local header, with the name and the stored contents behind it |
| MozZip.WriteStepSound | comm-release/mozilla/config/MozZipFile.py:70-127 | one writestr whose truncation hits the highest record: no record overlaps another, every entry points at its own record, and the archive reads back as the old map with that one name updated |
| MozZip.WriteStepValidIff | comm-release/mozilla/config/MozZipFile.py:103-112 | writestr keeps records apart and every entry at its own record if and only if the last listed entry, when it is the one overwritten, is also the highest record in the file |
| MozZip.UnsortedDirectoryLosesMember | comm-release/mozilla/config/MozZipFile.py:110-112 | for any two members: opened from a directory that lists them against file order, rewriting the first makes the second unreadable |
| MozZip.RunSound | comm-release/mozilla/config/MozZipFile.py:70-127 | any run of writestr calls reads back as the map updated in order; only the first call needs the guard, since every call leaves the directory sorted |
| MozZip.CloseSound | comm-release/mozilla/config/MozZipFile.py:129-170 | compaction keeps every member and its bytes under its name, leaves nothing retired and no overlap |
| MozZip.WritesThenClose | comm-release/mozilla/config/MozZipFile.py:70-168 | a whole life, writes then close: the directory leads to exactly the updated map |
| PackedZip.RunForgetsNone | comm-release/mozilla/config/MozZipFile.py:70-127 | between calls, in any archive, each record once listed is still listed or retired, or another of the same name stands in its place; what is retired stays so until close |
| PackedZip.StepRelists | comm-release/mozilla/config/MozZipFile.py:93-125 | one call lists the new entry at the end of the records and retires the old one of the name, or lists it in its place; no other entry moves |
| Sorting.SortByStable | comm-release/mozilla/config/MozZipFile.py:124-124 | entries with equal offsets keep their order through the sort |
| PackedZip.WritesThenClosePacked | comm-release/mozilla/config/MozZipFile.py:70-168 | writes then close, on an archive opened with its records one behind the other: the listed records, in order, lie one behind the other from byte 0 to the end of the records, with nothing between them but the extra field of an original that an uncompressed write of the same size has replaced; where anything was retired the file ends there |
| MozZip.KeptFits | comm-release/mozilla/config/MozZipFile.py:154-167 | the bytes kept from the first slots fit below the next slot: the copy target never passes the source |
| MozZip.CopyStep | comm-release/mozilla/config/MozZipFile.py:155-167 | one turn of the copy loop leaves every unread slot as it was and extends the packed prefix |
| MozZip.CompactedMember | comm-release/mozilla/config/MozZipFile.py:155-167 | each kept record stands, byte for byte, where its corrected offset says, inside its share of the packed file |
| MozZip.ZipFile.constructor | comm-release/mozilla/config/MozZipFile.py:51-68 | opening: the entries read, nothing retired, and the end where the cursor was left |
| MozZip.ZipFile.FindLast | comm-release/mozilla/config/MozZipFile.py:95-101 | the search from the end of the list finds the last entry with the name |
| MozZip.ZipFile.Unhook | comm-release/mozilla/config/MozZipFile.py:93-122 | after the branch of writestr on an existing name, appending at the cursor gives the specified new archive |
| MozZip.ZipFile.WriteStr | comm-release/mozilla/config/MozZipFile.py:70-127 | the method on file, list, retired list, name index and cursor does the specified step; unless it truncates another member the archive reads back as before with the name set to the bytes given, as they are or deflated |
| MozZip.ZipFile.Compact | comm-release/mozilla/config/MozZipFile.py:154-167 | the loop of seeks, reads and writes over one mutable file yields the kept slots packed from 0 |
| MozZip.ZipFile.Close | comm-release/mozilla/config/MozZipFile.py:129-168 | close on the mutable file does the specified compaction and leaves the cursor where the directory goes |
| ZipStruct.SerializationNeverFails | comm-release/mozilla/config/optimizejars.py:160-184 | the check that packing gives back the bytes read cannot fail, even on a truncated record |
| ZipStruct.ReadPacked | comm-release/mozilla/config/optimizejars.py:130-184 | a consistent record, packed and read back anywhere in a file, is the same record |
| ZipStruct.ReadSame | comm-release/mozilla/config/optimizejars.py:156-184 | reading depends on the bytes of the record alone, wherever it stands |
| ZipFormats.FixedSizes | comm-release/mozilla/config/optimizejars.py:40-104 | the fixed parts are 30, 46 and 22 bytes, as sections 4.3.7, 4.3.12 and 4.3.16 of the PKWARE APPNOTE lay them out |
| ZipFormats.LocalPlaces | comm-release/mozilla/config/optimizejars.py:40-55 | the numbers of a local header used here stand at the bytes section 4.3.7 gives them |
| ZipFormats.EntryPlaces | comm-release/mozilla/config/optimizejars.py:57-78 | those of a directory entry where section 4.3.12 does |
| ZipFormats.EndPlaces | comm-release/mozilla/config/optimizejars.py:80-89 | and those of the end record where section 4.3.16 does |
| ZipFormats.SignatureBytes | comm-release/mozilla/config/optimizejars.py:40-90 | in the file the signatures are PK, 3, 4 and PK, 5, 6 |
| OptimizeJar.ReorderFront | comm-release/mozilla/config/optimizejars.py:215-234 | the front of the reordered directory is the log without repeats and unknown names, in log order; the rest is a permutation |
| OptimizeJar.PlaceSwaps | comm-release/mozilla/config/optimizejars.py:215-234 | a log line exchanges the first entry of its name behind the front with the one standing there and moves no other |
| OptimizeJar.WantedMembers | comm-release/mozilla/config/optimizejars.py:215-234 | what a log asks for are the names that are both in it and in the jar |
| OptimizeJar.WantedOrder | comm-release/mozilla/config/optimizejars.py:215-234 | each once, in the order in which the log first names them |
| OptimizeJar.ReserveExact | comm-release/mozilla/config/optimizejars.py:204-213 | the room reserved before anything is written differs from the directory and end record emitted later by exactly the error of the input directory size, so it fits if and only if that field is right |
| OptimizeJar.OrderedJarReadable | comm-release/mozilla/config/optimizejars.py:236-320 | in an ordered jar the readahead word, the directory at 4, the end record, the records and the second end record do not overlap, and every entry leads to its own record |
| OptimizeJar.EveryFileWritten | comm-release/mozilla/config/optimizejars.py:252-275 | ordered or put back, every file of the directory gets exactly one member, in directory order and with its data, and nothing else gets one |
| OptimizeJar.ContentsKept | comm-release/mozilla/config/optimizejars.py:252-320 | an ordered jar lists exactly the files of the input, each once, and each reads there with its name, data and comment and every number of the input but the time, now 0, the date, now the first of January 2010, and the offset; local extra fields are gone |
| OptimizeJar.PlainContentsKept | comm-release/mozilla/config/optimizejars.py:252-312 | so does a jar put in plain form, in the order of the input |
| OptimizeJar.RoundTripContents | comm-release/mozilla/config/optimizejars.py:186-326 | ordered and put back, a jar lists exactly the files of the input, each once, reading with its name, data, comment and numbers but for the same exceptions |
| OptimizeJar.OrderingSucceedsIff | comm-release/mozilla/config/optimizejars.py:186-326 | ordering a well-formed jar succeeds if and only if every local header is there with the name of its entry, every record starts below 2^32, and so does what follows the last logged one |
| OptimizeJar.PlainSucceedsIff | comm-release/mozilla/config/optimizejars.py:186-326 | putting a well-formed jar in plain form succeeds if and only if every local header is there with the name of its entry and the records end below 2^32 |
| OptimizeJar.FourWrites | comm-release/mozilla/config/optimizejars.py:310-320 | records, directory, readahead word and end record, written out of order with seeks, make the four parts in file order |
| OptimizeJar.PutBack | comm-release/mozilla/config/optimizejars.py:200-202 | putting an ordered jar back never fails, leaves a jar that reads back with the same names and records, and recovers the names below the readahead mark |
| OptimizeJar.LogRoundTrip | comm-release/mozilla/config/optimizejars.py:186-326 | optimize then deoptimize gives back the log lines that exist in the jar, once each in log order, if and only if none of them names a directory member |
| OptimizeJar.NoLog | comm-release/mozilla/config/optimizejars.py:200-297 | only a jar with its directory at byte 4 has a log to give back, and ordering gives none |
| OptimizeJar.DirectoryLogLost | comm-release/mozilla/config/optimizejars.py:256-260 | the failing case on a well-formed jar of one directory, with a log that names it |
| OptimizeJarTool.BinaryBlob.ReadStruct | comm-release/mozilla/config/optimizejars.py:160-184 | the moving-offset reader yields the record of the value-level reader and leaves the offset behind it |
| OptimizeJarTool.ReadDirectory | comm-release/mozilla/config/optimizejars.py:204-213 | the loop yields the directory and the bytes that will be stripped from it |
| OptimizeJarTool.ReorderByLog | comm-release/mozilla/config/optimizejars.py:215-234 | the loop of searches and swaps over a duplicate guard yields the specified order and count |
| OptimizeJarTool.WriteMembers | comm-release/mozilla/config/optimizejars.py:252-297 | the main loop leaves in the file, the directory data, the readahead mark and the log what the specification says |
| OptimizeJarTool.OptimizeJarFile | comm-release/mozilla/config/optimizejars.py:186-326 | the whole tool, reading one file and writing another, computes the specified jar and log, or fails with it |
| ElfStrings.TableString | comm-release/mozilla/config/elf-dynstr-gc.c:639-674 | each string laid out in any order is found, up to its NUL, at the index given to it, which lies in the table |
| ElfStrings.TableSize | comm-release/mozilla/config/elf-dynstr-gc.c:626-674 | the laid-out table is exactly as long as the sum taken over the hash table, for every order |
| ElfStrings.Image.PossiblyAddString | comm-release/mozilla/config/elf-dynstr-gc.c:364-383 | collecting an index keeps the hash table right and never drops one |
| ElfStrings.Image.AddStrings | comm-release/mozilla/config/elf-dynstr-gc.c:405-598 | every reference of the four kinds, and nothing that is not one, ends in the hash table |
| ElfStrings.Image.GenerateNewDynstr | comm-release/mozilla/config/elf-dynstr-gc.c:626-674 | for any iteration order the new table is filled exactly, and every entry has the index where its string stands |
| ElfStrings.Image.FixupMeans | comm-release/mozilla/config/elf-dynstr-gc.c:385-403 | the fixed-up index means through the new table what the old one meant |
| ElfStrings.WhateverFollows | comm-release/mozilla/config/elf-dynstr-gc.c:1189-1190 | and with anything behind the table |
| ElfStrings.Image.ReplaceStringTable | comm-release/mozilla/config/elf-dynstr-gc.c:1141-1190 | when the table shrinks it holds exactly the strings referred to, and every symbol, dynamic, version definition and version need reference names, through the new table alone, the same string as before; otherwise nothing changes |
| ElfStrings.Image.Rewrite | comm-release/mozilla/config/elf-dynstr-gc.c:1177-1190 | fixing up the four kinds of references and storing the table leaves every reference with its string and blanks the rest |
| ElfHole.ByteMoved | comm-release/mozilla/config/elf-dynstr-gc.c:305-312 | each byte outside the hole is found at its fixed-up offset after the move |
| ElfHole.Compact | comm-release/mozilla/config/elf-dynstr-gc.c:1231-1237 | memmove and truncate leave the file without the hole |
| ElfHole.SizeRightIff | comm-release/mozilla/config/elf-dynstr-gc.c:314-326 | a size is corrected to the bytes that remain if and only if the hole is inside the range or outside it |
| ElfHole.RangeMoved | comm-release/mozilla/config/elf-dynstr-gc.c:676-741 | a rewritten header reads in the moved file what it read before, less the hole |
| ElfHole.OrderKept | comm-release/mozilla/config/elf-dynstr-gc.c:676-741 | ranges in file order stay in order and apart |
| ElfHole.RemapSections | comm-release/mozilla/config/elf-dynstr-gc.c:676-700 | the loop rewrites every section header, sizes from the offsets as they were |
| ElfHole.RemapSegments | comm-release/mozilla/config/elf-dynstr-gc.c:702-741 | the same for segments, with the physical address set to the virtual one |
| ElfHole.FindNextHigherSection | comm-release/mozilla/config/elf-dynstr-gc.c:203-231 | the section found has the least offset that is not below the given one, or there is none |
| ElfHole.AlignHole | comm-release/mozilla/config/elf-dynstr-gc.c:1031-1067 | when there is a shift, in 32-bit arithmetic, after which every section passes the alignment test, the loop ends and yields the least one; with sections aligned to begin with there is, and it is at most the whole hole |
| ElfHole.WholeHoleAligns | comm-release/mozilla/config/elf-dynstr-gc.c:1031-1067 | with sections aligned to begin with, closing the whole hole is such a shift |
| ElfHole.AlignedAfterMove | comm-release/mozilla/config/elf-dynstr-gc.c:1031-1067 | the shift found keeps sections above the hole aligned after the move |
| ElfHole.OthersWhole | comm-release/mozilla/config/elf-dynstr-gc.c:1195-1203 | no section but the string table can be cut by the hole chosen |
| ElfHole.SegmentWholeIff | comm-release/mozilla/config/elf-dynstr-gc.c:1195-1203 | the hole chosen leaves a segment whole exactly unless it holds the string table and ends in the padding behind it, beyond the start of the hole |
| ElfHole.DynstrHeader | comm-release/mozilla/config/elf-dynstr-gc.c:1195-1203 | the rewritten size of the string table section covers the new table if and only if the padding behind the old one is at most the shift, or the hole starts behind the section |
| ElfHole.DynstrHeaderTooSmall | comm-release/mozilla/config/elf-dynstr-gc.c:1195-1203 | the failing case on a concrete pair of sections |
| ElfReloc.VmaToOffsetLoop | comm-release/mozilla/config/elf-dynstr-gc.c:233-260 | the loop resolves an address through the first section that contains it, else to 0 |
| ElfReloc.RelocatesIff | comm-release/mozilla/config/elf-dynstr-gc.c:780-813 | an entry has a target word exactly if its type is 7, a jump slot, or 8, a relative relocation |
| ElfReloc.SeparateIff | comm-release/mozilla/config/elf-dynstr-gc.c:780-813 | what the next statement assumes of a table: all bytes of entries and targets are in the file, and none is in two of them |
| ElfReloc.TableCorrectedOnce | comm-release/mozilla/config/elf-dynstr-gc.c:780-813 | every relocation entry and every relative or jump-slot target is shifted exactly once, infos stay, and no other byte changes |
| ElfReloc.RemapRelSection | comm-release/mozilla/config/elf-dynstr-gc.c:780-813 | the loop over the mapped file corrects the table as specified; for i386 the loop for entries with an addend does the same |
| ElfReloc.ProcessedOnceIff | comm-release/mozilla/config/elf-dynstr-gc.c:943-1029 | for any dynamic section with a main relocation table and a jump-slot table, looking only at where the latter starts processes each entry of both once if and only if it lies inside the main table or apart from it |
| ElfReloc.OverlapProcessedTwice | comm-release/mozilla/config/elf-dynstr-gc.c:943-956 | a dynamic section whose jump-slot table starts in front of the main one and runs into it: the entry they share is processed twice |
| ElfReloc.TablesSeparate | comm-release/mozilla/config/elf-dynstr-gc.c:943-1029 | and then no two entries processed overlap |
| ElfReloc.TablesCorrectedOnce | comm-release/mozilla/config/elf-dynstr-gc.c:943-1029 | and every entry and target of both tables is shifted exactly once and no other byte changes, as long as the targets are clear of the entries and of each other |
| ElfReloc.RemapDynamic | comm-release/mozilla/config/elf-dynstr-gc.c:943-1029 | in front of DT_NULL the string table size is the new one, the eleven known address entries are shifted and the others kept, entries behind are kept, and the tables named, of either kind, are processed in the file |
| ElfReloc.DynamicFollows | comm-release/mozilla/config/elf-dynstr-gc.c:971-1025 | an entry that the ABI says holds an address, outside the hole and mapped by a segment, leads through the rewritten segment to its moved byte if and only if it is none of the six the program does not know, or its address is in front of the hole, or the hole is empty |
| ElfReloc.InitArrayLeftBehind | comm-release/mozilla/config/elf-dynstr-gc.c:971-1025 | a concrete DT_INIT_ARRAY behind the hole still holds the old address afterwards |
| ElfReloc.StrtabRewritten | comm-release/mozilla/config/elf-dynstr-gc.c:971-987 | what DT_STRTAB and DT_STRSZ give a loader in the rewritten dynamic section: the shifted address and the new size |
| ElfReloc.DynamicValIs | comm-release/mozilla/config/elf-dynstr-gc.c:918-941 | a value read from the dynamic section is that of the first entry with the tag, or 0 when none has it |
| ElfReloc.AddressFollows | comm-release/mozilla/config/elf-dynstr-gc.c:233-260 | an address whose section, and those before it, are loaded or unloaded at 0 resolves, shifted and through the rewritten headers, through the same section if and only if no unloaded section before it reaches up to it and .dynstr still covers it; then to where its byte is now |
| ElfReloc.RelocationFollows | comm-release/mozilla/config/elf-dynstr-gc.c:780-813 | in the finished file a moved entry leads, through the rewritten headers, to its moved target word, shifted once, whatever sections are listed behind |
| ElfReloc.SegmentFollows | comm-release/mozilla/config/elf-dynstr-gc.c:702-741 | for a segment on one side of the hole, or mapped at its own offset around it: a shifted address is in the rewritten segment, and backed by the file, exactly if it was, and its byte is where it has moved to |
| ElfReloc.RelocationMapped | comm-release/mozilla/config/elf-dynstr-gc.c:702-813 | in the finished file a moved entry leads, through the rewritten program headers alone, to its moved target word, shifted once |
| ElfFinish.StrtabFoundIff | comm-release/mozilla/config/elf-dynstr-gc.c:1171-1229 | DT_STRTAB, shifted, resolves through the rewritten headers to the new table if and only if the padding behind the old one is less than new size and shift together, or the hole starts behind the section, and no unloaded section before reaches up to it |
| ElfFinish.StringsFollow | comm-release/mozilla/config/elf-dynstr-gc.c:1171-1237 | in the finished file, through DT_STRTAB and the rewritten headers, every reference names its old string |
| ElfFinish.StringsMapped | comm-release/mozilla/config/elf-dynstr-gc.c:1171-1237 | the address a loader finds in the rewritten DT_STRTAB leads, through the rewritten program headers alone, to a table in which every reference names its old string, and the rewritten DT_STRSZ is its length, whatever padding and unloaded sections there are |
| Preprocessor.StreamingMeansTree | comm-release/mozilla/config/Preprocessor.py:214-344 | on every well-nested input, output, variables and first error of the line machine are those of evaluating the conditional tree, and counter and stack are restored |
| Preprocessor.ConditionTable | comm-release/mozilla/config/Preprocessor.py:261-344 | for every test, body and rest of the conditional: ifdef takes its branch exactly if the name is defined, ifndef exactly if not, if exactly if its expression is a number other than 0; a bad name or expression stops the run; behind a branch not taken, elif does what an if with its test would have done, and else its body |
| Preprocessor.PlainTable | comm-release/mozilla/config/Preprocessor.py:214-260 | where nothing is disabled, text and literal lines append themselves, an expand its expansion, a comment nothing; a define binds its name and an undef unbinds it, and no other name changes; bad definitions, error lines and unknown commands stop the run |
| Preprocessor.DefinedThenTested | comm-release/mozilla/config/Preprocessor.py:238-259 | after a define an ifdef of the name takes its branch, after an undef it does not |
| Preprocessor.SecondElse | comm-release/mozilla/config/Preprocessor.py:258-331 | beyond the trees: a second else enables what follows it, whichever branch was taken, as if the conditional had ended there |
| Preprocessor.ElifBehindElse | comm-release/mozilla/config/Preprocessor.py:314-344 | and an elif behind an else does nothing: what follows it is more of the else body |
| Preprocessor.WellNestedIff | comm-release/mozilla/config/Preprocessor.py:214-344 | the well-nested inputs are exactly the lines of conditional trees |
| Preprocessor.SkipBlock | comm-release/mozilla/config/Preprocessor.py:261-264 | a balanced block in a disabled region changes neither state nor output |
| Preprocessor.ActiveBlock | comm-release/mozilla/config/Preprocessor.py:261-344 | a balanced block in an enabled region does what its tree means and restores counter and stack, whatever follows |
| Preprocessor.WantingRest | comm-release/mozilla/config/Preprocessor.py:322-344 | elif, else and endif behind branches that were all false mean evaluating the remaining chain |
| Preprocessor.TakenRest | comm-release/mozilla/config/Preprocessor.py:314-344 | behind a branch that was taken nothing more of the chain is executed or evaluated |
| Preprocessor.RunDepth | comm-release/mozilla/config/Preprocessor.py:214-344 | on any input: open depth is stack height plus the disabled nesting, it counts opened less closed conditionals, and the stack is popped empty only at an else, elif or endif at depth 0 |
| Preprocessor.Processor.DoIf | comm-release/mozilla/config/Preprocessor.py:261-313 | the three opening handlers, with and without replace, on the mutable fields; what their tests mean is ConditionTable |
| Preprocessor.Processor.HandleLine | comm-release/mozilla/config/Preprocessor.py:214-344 | one line on the mutable fields is one step of the machine, or its error |
| Preprocessor.Processor.Process | comm-release/mozilla/config/Preprocessor.py:214-344 | processing a whole input is the run of the machine, stopped at the first error |
| ConfigFile.ParseWritten | comm-release/mozilla/config/configobj.py:1410-1596 | reading what was written for any tree with names used once per section gives the tree back: key order, section order, values, depths and parents |
| ConfigFile.WriteParsed | comm-release/mozilla/config/configobj.py:1410-1596 | writing what was read from any accepted lines gives those lines back |
| ConfigFile.AcceptedIff | comm-release/mozilla/config/configobj.py:1410-1596 | the parser accepts exactly what the writer can write |
| ConfigFile.StepFaults | comm-release/mozilla/config/configobj.py:1434-1560 | which error a line is: unreadable, brackets that differ, nested more than one level deeper, a section name taken one level up, or a key taken in the section being read |
| ConfigFile.ParentDepth | comm-release/mozilla/config/configobj.py:1455-1480 | the three ways a marker finds its parent agree: the section one level up on the way to the top |
| ConfigFile.MatchDepthTwice | comm-release/mozilla/config/configobj.py:1580-1596 | the parent of the section found at a depth is the section found at the depth above |
| ConfigFile.SetItemConsistentIff | comm-release/mozilla/config/configobj.py:537-586 | assigning keeps the scalar and section lists in step with the dictionary if and only if it does not turn a scalar into a section or back; a new key comes last of its kind, an old one keeps its place |
| ConfigFile.KindChanged | comm-release/mozilla/config/configobj.py:537-586 | a section with one scalar, assigned a section under its name: the name stands in both lists |
| ConfigFile.AttachValid | comm-release/mozilla/config/configobj.py:1486-1496 | a new section under an unused name keeps every parent, depth and name link right |
| ConfigFile.RunWritten | comm-release/mozilla/config/configobj.py:1410-1596 | from any state at a fresh section, the lines of a tree grow exactly that tree there and change no earlier section |
| ConfigFile.Grafted | comm-release/mozilla/config/configobj.py:1891-1960 | what is added at the end of the section being read is added at the end of the whole output |
| ConfigFile.ConfigObj.FindDepth | comm-release/mozilla/config/configobj.py:1580-1596 | walking back through the parents finds the section at that depth |
| ConfigFile.ConfigObj.ReadLine | comm-release/mozilla/config/configobj.py:1434-1560 | one line on the mutable sections is one step of the parser, with its error cases |
| ConfigFile.ConfigObj.Parse | comm-release/mozilla/config/configobj.py:1410-1596 | the loop over the lines yields the specified sections, or the first error and its line |
| ConfigFile.ConfigObj.Write | comm-release/mozilla/config/configobj.py:1891-1960 | the recursive writer emits scalars, then each section behind a marker of its depth |
| Interpolation.InterpolateMeans | comm-release/mozilla/config/configobj.py:311-357 | reading a string option gives what plain recursive substitution gives, and a loop error if and only if that would never end |
| Interpolation.ExpandSubstitutes | comm-release/mozilla/config/configobj.py:324-351 | with any backtrail: unless it stops at a loop, expansion is substitution |
| Interpolation.ExpandLoops | comm-release/mozilla/config/configobj.py:324-337 | a loop error names a key still being expanded, and the value can end only after that key has |
| Interpolation.ReadMeans | comm-release/mozilla/config/configobj.py:311-357 | interpolating under any key, in the section or not: substitution, and a loop error if and only if substitution never ends or comes back to that key in a section of the same name |
| Interpolation.ExpandLoopsIff | comm-release/mozilla/config/configobj.py:324-337 | with any backtrail whose other keys are not looked up again: where substitution ends, expansion stops at a loop exactly if it comes back to the first marker |
| Interpolation.PoppedNameClash | comm-release/mozilla/config/configobj.py:619-632 | a popped key whose reference is to a key of the same name in a parent of the same name: a loop error where substitution gives 1 |
| Interpolation.FetchIs | comm-release/mozilla/config/configobj.py:359-390 | a lookup gives the value of the first section on the way up that has the key, from the section itself or else from its DEFAULT, unless a DEFAULT that is no section comes first; the option is missing exactly if no section has it and none has such a DEFAULT |
| Interpolation.FetchScalar | comm-release/mozilla/config/configobj.py:369-383 | a lookup fails on a DEFAULT that is no section exactly if the sections have such a one before they have the key |
| Interpolation.ScalarIff | comm-release/mozilla/config/configobj.py:342-390 | expansion fails so exactly if it has not met a loop and substitution looks such a key up |
| Interpolation.ScalarDefault | comm-release/mozilla/config/configobj.py:374-376 | a configuration on which it does |
| Interpolation.OneOutcome | comm-release/mozilla/config/configobj.py:324-351 | the outcome of substitution does not depend on the depth allowed |
| Interpolation.SearchIs | comm-release/mozilla/config/configobj.py:305-305 | a match is the first %(key)s, with no closing parenthesis in the key, from the position on |
| Interpolation.SearchShift | comm-release/mozilla/config/configobj.py:344-348 | searching on behind a replacement is searching what is left |
| Interpolation.Engine.FetchKey | comm-release/mozilla/config/configobj.py:359-390 | the lookup through the parents yields the value of the first section or DEFAULT that has the key, in that order, with the errors just described; the interpolation flag is restored if and only if none of the DEFAULTs met first is a scalar |
| Interpolation.Engine.RecursiveInterpolate | comm-release/mozilla/config/configobj.py:312-352 | the loop that splices replacements into a growing value ends on every configuration, computes the specification, leaves the backtrail as found on success, and loses the flag exactly if it runs into such a DEFAULT before a loop |
| Interpolation.Engine.InterpolateOption | comm-release/mozilla/config/configobj.py:354-357 | each read starts from an empty backtrail and is substitution, or the loop error, or the loss of the flag, just described |
| Interpolation.Engine.GetItem | comm-release/mozilla/config/configobj.py:530-535 | reading a key: the value as it is, or substituted; a loop error if and only if substitution never ends; the flag lost if and only if it runs into a scalar DEFAULT |
| Interpolation.Engine.Pop | comm-release/mozilla/config/configobj.py:619-632 | popping a key removes it before interpolating: a loop error also when substitution, in the section without the key, comes back to it in a section of the same name |
| StartupCache.StepKeeps | comm-release/mozilla/startupcache/StartupCache.cpp:325-604 | every step of main thread, timer and writer keeps the invariant and changes what the cache holds exactly as the plain map changes |
| StartupCache.OneWriter | comm-release/mozilla/startupcache/StartupCache.cpp:519-549 | over every interleaving whatever, ids put twice or not: at most one writer, none while the main thread is behind its wait, none while the timer is set |
| StartupCache.ShutdownIff | comm-release/mozilla/startupcache/StartupCache.cpp:556-574 | over every run: puts are refused exactly from the end of a shutdown notification on |
| StartupCache.ArmedIff | comm-release/mozilla/startupcache/StartupCache.cpp:539-604 | and the timer is set exactly if a put has ended, before any shutdown, and since then it has not fired nor the destructor been called |
| StartupCache.GetFinds | comm-release/mozilla/startupcache/StartupCache.cpp:325-355 | a get finds what was put since the last invalidation, or was in the file, exactly unless a write was initiated and the entry is still in the table |
| StartupCache.HiddenPutIsNotFound | comm-release/mozilla/startupcache/StartupCache.cpp:325-502 | a run in which that happens: a put, a write whose zip does not open, a get |
| StartupCache.GetAlwaysFinds | comm-release/mozilla/startupcache/StartupCache.cpp:325-502 | while the zip can be opened, every get finds what was put |
| StartupCache.DestroyWritesAll | comm-release/mozilla/startupcache/StartupCache.cpp:163-180 | the destructor leaves in the file all the cache held, whatever timer and writer had got to |
| StartupCache.PutAgainSeenIff | comm-release/mozilla/startupcache/StartupCache.cpp:417-442 | after the next write an id put again shows its new bytes if and only if the file did not have it with others |
| StartupCache.PutAgainIsLost | comm-release/mozilla/startupcache/StartupCache.cpp:417-502 | a run in which it does not: put, written, put with other bytes, written, and a get that returns the first |
| StartupCache.WriterRefinesFlush | comm-release/mozilla/startupcache/StartupCache.cpp:449-502 | the writer, entry by entry in any order, does what WriteToDisk does in one go |
| StartupCache.Cache.WriteToDisk | comm-release/mozilla/startupcache/StartupCache.cpp:449-502 | the method moves the table into the zip and reloads the archive, or keeps the table when the zip does not open |
| StartupCache.Cache.AddEntries | comm-release/mozilla/startupcache/StartupCache.cpp:417-442 | enumerating and removing entries in any order leaves an empty table and the merged zip |
| StartupCache.Cache.GetBuffer | comm-release/mozilla/startupcache/StartupCache.cpp:325-355 | finds what the cache holds, in table or file, but for entries of the table once a write has been initiated; then, and for what is not held, the omnijar of the application and behind it that of the platform |
| StartupCache.Cache.PutBuffer | comm-release/mozilla/startupcache/StartupCache.cpp:358-387 | until shutdown, what the cache holds gains exactly this entry, the next get returns it, no get that found something changes, and a write is due; after shutdown nothing changes |
| StartupCache.Cache.InvalidateCache | comm-release/mozilla/startupcache/StartupCache.cpp:503-512 | the cache holds nothing, in table, file or reader, and every get goes to the omnijars |
| LinkedList.Inserted | comm-release/mozilla/mfbt/LinkedList.h:249-274 | four pointer writes behind one element of a ring make the ring with the new element there |
| LinkedList.Removed | comm-release/mozilla/mfbt/LinkedList.h:196-204 | unlinking an element leaves the ring of the others |
| LinkedList.Element.SetNextUnsafe | comm-release/mozilla/mfbt/LinkedList.h:249-258 | the element stands behind this one in the ring |
| LinkedList.Element.SetPreviousUnsafe | comm-release/mozilla/mfbt/LinkedList.h:264-273 | the element stands before this one, at the end when this is the sentinel |
| LinkedList.Element.RemoveFrom | comm-release/mozilla/mfbt/LinkedList.h:196-204 | the ring closes over the gap and the element is alone |
| LinkedList.LinkedList.InsertFront | comm-release/mozilla/mfbt/LinkedList.h:294-298 | the list is the element followed by what it was |
| LinkedList.LinkedList.InsertBack | comm-release/mozilla/mfbt/LinkedList.h:303-306 | the list is what it was followed by the element |
| LinkedList.LinkedList.PopFirst | comm-release/mozilla/mfbt/LinkedList.h:328-335 | the first element, alone now, and the rest; null on an empty list |
| LinkedList.LinkedList.PopLast | comm-release/mozilla/mfbt/LinkedList.h:341-348 | the last element, alone now, and the rest; null on an empty list |
| LinkedList.LinkedList.IsEmpty | comm-release/mozilla/mfbt/LinkedList.h:353-356 | whether the list has no elements |
| LinkedList.Lists.SetNext | comm-release/mozilla/mfbt/LinkedList.h:176-180 | over several lists: one list gains the element behind another, no list shares anything, all others are untouched |
| LinkedList.Lists.Remove | comm-release/mozilla/mfbt/LinkedList.h:196-204 | over several lists: one list loses the element, which is alone, all others are untouched |
| LinkedList.Lists.Run | comm-release/mozilla/mfbt/LinkedList.h:171-348 | any run of calls on several lists: each is a ring of its own through its sentinel and holds what a plain sequence would hold |
| FiniteWalk.Meet | comm-release/mozilla/mfbt/LinkedList.h:369-395 | in any finite graph a walk at single and one at double speed meet |
| FiniteWalk.SameNode | comm-release/mozilla/mfbt/LinkedList.h:369-395 | a walk that comes back to its start is at one node at two times only if it is at its start after the difference |
| ListSanity.CaughtIn | comm-release/mozilla/mfbt/LinkedList.h:369-395 | slow meeting fast before the sentinel is seen means it never will be |
| ListSanity.NoCycleForward | comm-release/mozilla/mfbt/LinkedList.h:369-379 | on any finite graph the loop ends, and passes if and only if next leads back to the sentinel |
| ListSanity.NoCycleBackward | comm-release/mozilla/mfbt/LinkedList.h:384-395 | the same for prev |
| ListSanity.OneSentinel | comm-release/mozilla/mfbt/LinkedList.h:401-406 | the loop passes if and only if next goes round a ring without another sentinel |
| ListSanity.PointersMatch | comm-release/mozilla/mfbt/LinkedList.h:409-418 | the loop passes if and only if prev goes back along the ring, the sentinel excepted |
| ListSanity.DebugAssertIsSane | comm-release/mozilla/mfbt/LinkedList.h:362-420 | on any finite graph closed under next and prev the check ends, and passes exactly on the graphs so described |
| ListSanity.SaneIff | comm-release/mozilla/mfbt/LinkedList.h:409-418 | a sane list is one that passes and whose sentinel has the last element before it |
| ListSanity.SkipsNotSane | comm-release/mozilla/mfbt/LinkedList.h:409-418 | the pointer not checked matters: a list whose sentinel skips its last element passes and is no ring |
| ListSanity.Missed | comm-release/mozilla/mfbt/LinkedList.h:362-420 | such a list, built and passed by the check |
| ListSanity.ValidPasses | comm-release/mozilla/mfbt/LinkedList.h:362-420 | the check passes on every valid list |
| ListSanity.RunPasses | comm-release/mozilla/mfbt/LinkedList.h:171-420 | and so on every list after any run of calls over several lists |
| RefPtr.SoundMeans | comm-release/mozilla/mfbt/RefPtr.h:78-117 | between statements a count is the number of owners, an owned object lives, a deleted one has no owner and is deleted once |
| RefPtr.LastGone | comm-release/mozilla/mfbt/RefPtr.h:93-101 | an object at count one whose reference goes has no owner left |
| RefPtr.MakeBusy | comm-release/mozilla/mfbt/RefPtr.h:179-182 | the pointer about to be overwritten becomes a reference on its way to release |
| RefPtr.LedToIsHeld | comm-release/mozilla/mfbt/RefPtr.h:179-182 | an object that a local leads to by any chain of members, past the holder being written, lives through the write |
| RefPtr.OwnMemberOnly | comm-release/mozilla/mfbt/RefPtr.h:179-182 | the failing case: of two objects that own each other, writing a member of one deletes the object the member is in |
| RefPtr.Heap.Release | comm-release/mozilla/mfbt/RefPtr.h:93-101 | releasing, with the members of deleted objects released in turn, keeps every count right; what lives on is exactly what is held by a local or by members of objects held, the rest is deleted, each once |
| RefPtr.Heap.Assign | comm-release/mozilla/mfbt/RefPtr.h:179-182 | the old reference is released before the pointer is written: the write is to live memory if and only if the object the holder is in is held without it; then the counts are right if and only if the new pointer had been counted |
| RefPtr.Heap.AssignPtr | comm-release/mozilla/mfbt/RefPtr.h:146-161 | assignment counts first, so the new object holds too; under that condition everything is sound; assigning a holder what it has changes nothing |
| RefPtr.Heap.AssignTemporary | comm-release/mozilla/mfbt/RefPtr.h:150-153 | a temporary hands its reference over without a count, under the same condition |
| RefPtr.Heap.Move | comm-release/mozilla/mfbt/RefPtr.h:165-169 | forget and construction from a temporary move a reference, leaving every count |
| RefPtr.Heap.Construct | comm-release/mozilla/mfbt/RefPtr.h:136-142 | a new holder has a reference of its own |
| RefPtr.Heap.Destruct | comm-release/mozilla/mfbt/RefPtr.h:144-144 | the end of a local deletes its object exactly if it was the only reference, and with it exactly what is no longer held |
| RefPtr.Heap.ByRef | comm-release/mozilla/mfbt/RefPtr.h:254-283 | around a call the counts stay right if and only if the callee counts what it returns; if it leaves the parameter alone uncounted, the holder dangles exactly if it was the only owner |
| RefPtr.SafeWriteIff | comm-release/mozilla/mfbt/RefPtr.h:179-182 | that condition in terms of the plain program: the holder written to is still there after the assignment |
| RefPtr.DeletedIff | comm-release/mozilla/mfbt/RefPtr.h:78-117 | an object made is deleted exactly if no holder that can still be used points to it |
| RefPtr.Heap.Run | comm-release/mozilla/mfbt/RefPtr.h:78-283 | any run of constructions, copies, moves, assignments, ends and byRef calls under the COM rule is the same run of plain pointers that never frees anything: every holder that can still be used has the value it has there, counts are right, and exactly the objects no longer alive there are deleted, each once |
| BloomFilter.AddExact | comm-release/mozilla/mfbt/BloomFilter.h:170-181 | adding keeps every counter full or exact, also when both slots are one |
| BloomFilter.RemoveExact | comm-release/mozilla/mfbt/BloomFilter.h:191-204 | removing what was added keeps every counter full or exact and takes none below zero |
| BloomFilter.RemoveWrapsIff | comm-release/mozilla/mfbt/BloomFilter.h:191-204 | a remove wraps a counter round exactly if a slot is at zero, or both are one slot at one |
| BloomFilter.PresentIsSeen | comm-release/mozilla/mfbt/BloomFilter.h:214-220 | an item in the filter is always seen |
| BloomFilter.SeenIff | comm-release/mozilla/mfbt/BloomFilter.h:143-168 | present or not, an item is seen exactly if both its slots, the low bits of its hash and those from the sixteenth on, are full for good or slots of an item present |
| BloomFilter.HitsOf | comm-release/mozilla/mfbt/BloomFilter.h:170-181 | the hits on a slot are those of one item and of the others |
| BloomFilter.BloomFilter.AddHash | comm-release/mozilla/mfbt/BloomFilter.h:170-181 | the two counters go up, one after the other, unless full |
| BloomFilter.BloomFilter.RemoveHash | comm-release/mozilla/mfbt/BloomFilter.h:191-204 | the two counters go down, one after the other, unless full |
| BloomFilter.BloomFilter.MightContain | comm-release/mozilla/mfbt/BloomFilter.h:214-220 | true exactly when both slots are non-zero, which with exact counters is when both are hit; hence for every item present |
| BloomFilter.BloomFilter.Run | comm-release/mozilla/mfbt/BloomFilter.h:163-220 | any history in which removes match adds leaves exact counters and no false negative |
| MakeDepend.WalkEnters | comm-release/mozilla/config/makedep.cpp:229-255 | printing an include and walking it in turn extends the set visited as a depth-first walk does |
| MakeDepend.WalkIsReachable | comm-release/mozilla/config/makedep.cpp:229-291 | a walk started with only the source visited prints exactly what the source reaches |
| MakeDepend.Makedep.PrintIncludes | comm-release/mozilla/config/makedep.cpp:229-255 | the recursive walk ends on any graph, prints each file once and leaves nothing reachable unvisited |
| MakeDepend.Makedep.PrintDepend | comm-release/mozilla/config/makedep.cpp:257-291 | what is printed for a source is every file it reaches through files that are not excluded, each once and never itself |
| MakeDepend.Makedep.ProcessFile | comm-release/mozilla/config/makedep.cpp:151-227 | the includes that exist are listed in order, with a new record for each file not seen before |
| MakeDepend.Makedep.ProcessFiles | comm-release/mozilla/config/makedep.cpp:640-665 | starting over after every file ends, with the records of the least set of files closed under includes, each read once |

## Left out

- Zip: the bytes of the directory and end record that the base class writes, the bytes behind the directory when close
  has nothing to compact, locking, checksums and compression (a function from bytes to bytes). Entries are values, so
  two list positions holding one entry object are not captured. Callers pass names.
- Zip: the opened archive has distinct names and records that do not overlap.
- PackedZip.WritesThenClosePacked: where nothing was retired, close writes the directory at the end of the records and does not
  truncate, so bytes of the directory read at opening can remain behind it, as they stood.
- Jar: the log is a list of names; splitting its text, the duplicate report and the loop over a directory of jars are not
  modelled. Members have no data descriptors, the jar no comment.
- OptimizeJar.OrderedJarReadable: assumes a well-formed input whose directory size field is right; what a wrong field does to
  the layout is ReserveExact.
- ELF: big-endian files, PPC, the global offset table, symbol values and the entry point of the ELF
  header are not rewritten in the model. Version records are their names, not their chained bytes. String tags the
  program does not collect, such as DT_RUNPATH, are left as they are.
- ElfReloc.TableCorrectedOnce: assumes that entries and targets lie in the file and do not overlap, as relocations with
  distinct targets do; an address in no section resolves to offset 0 in the code and in the model.
- ElfReloc.RemapRelSection: assumes an entry size other than 0 for a table with entries; 0 would keep the C loop going
  for ever.
- ElfReloc.ProcessedOnceIff: assumes sizes that are multiples of the entry size, tables that start a multiple of it apart,
  and one displacement between address and offset for both.
- ElfReloc.RelocationFollows: assumes that the sections up to the one with the target lie, in addresses as in offsets, on
  one side of the hole, or are the string table, or are unloaded at address 0; that entry and target are outside the
  hole; and that the target's section is still the first found, which AddressFollows says exactly when.
- ElfReloc.RelocationMapped: assumes a segment on one side of the hole or mapped at its own offset around it, and that it
  and the section headers agree on where the target is in the input.
- ElfStrings.Image.AddStrings: version records are lists of names; the walk along their chained offsets is not modelled.
- Preprocessor: evaluating expressions, variable expansion and the word test on names are parameters; filters, line markers,
  include and the command line are not modelled. The warning about else behind else prints only.
- ConfigObj: lines come as markers, key-value pairs and unreadable lines; quoting, comments, lists, multi-line values,
  encodings, configspecs and the default values that validation adds are not modelled. Sections refer to each other by number in one list, so that a section
  object put into two places is not captured. Parsing stops at the first error, as with raise_errors; what the parser
  goes on to build behind an error when it is off is not modelled, but it raises in the end all the same.
- Interpolation: the engine for string.Template patterns. Values read while interpolating are those of the sections as
  they are; a None value is not one.
- Startup cache: a file that cannot be removed or read back, adding an entry that fails for another reason than being
  there, telemetry, memory reports and the test-only wrapper. Opening the zip may fail. The first load is a parameter.
- LinkedList.Element.SetNextUnsafe: the assertion that the new element is in no list is the precondition, and the ring it is
  called in is a ghost parameter.
- RefPtr: destructors do nothing but release the members of their object. Counts do not overflow. Objects of related
  types are one kind.
- RefPtr.Heap.Assign: when the release deletes the object the holder is in, the destructor of the holder releases the old
  pointer a second time, so that its count falls below zero or a debug assertion fails, before the write to freed memory.
  The model leaves that second release out and reports that the holder is gone.
- RefPtr.Heap.Run: addresses are not used again. Objects that own each other stay alive, as they do in the code.
- Bloom filter: the hash functions of the items; the filter takes hashes.
- BloomFilter.BloomFilter.Run: removes match adds; what a remove without an add does to a counter is RemoveWrapsIff.
- makedep: opening and scanning files, search paths and the index by short name (each file's includes come by the path
  they were found at), 8.3 names, macros and build rules.
- `hal/`, `appIdleManager.js`, `buildlist.py` and `createprecomplete.py`, whose invariants are small, and everything
  that is preferences, interface or glue code.
