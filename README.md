# minikernel block store, interrupt dispatcher and process launcher

A model of the core of the minikernel teaching operating system. A
simulated disk holds an image of 512-byte blocks. `Disk` is the slow,
asynchronous device: a caller starts a transfer with `beginRead` or
`beginWrite`, and a controller thread later serves the request, sleeps for
a seek delay and moves one block. `FastDisk` is the synchronous variant the
file system actually runs on.

`FileSys` mounts a flat file system from a `FastDisk`:

- block 0 is the free map, where byte `i` is `'1'` when block `i` holds a file;
- every other block holds one file;
- a file block carries its name in its first 32 bytes;
- a 100-slot table mirrors the names in memory.

The kernel has one entry point, `Kernel.interrupt(kind, i1, i2, o1, o2, a)`.

- It dispatches on the interrupt kind and, for user interrupts, on the system-call number.
- It casts the `Object` arguments to the types each handler expects.
- It turns any exception into `ERROR_BAD_ARGUMENT`.

The file handlers are `doCreateFile`, `doRead`, `doWrite`, `doDelete` and `doFormat`, with their shared lookup `findTargetBlock`. Together they implement the file system. `doExec` and `doJoin` manage a process table kept by the `Launcher` class.

`FileTester` is the shell. This model covers these parts of it:

- its command-line classification;
- its `help`, `writeTest` and `writeLines` helpers;
- its `showChar` display;
- the decoding of directory entries in `dumpDir` and `dirSearch`.

Modules follow the source files:

- `JavaTypes`: Java `byte`, `int` wrap-around, `char` casts, `new String(byte[])`, `getBytes`, `trim`.
- `Blocks`: the image as 512-byte blocks.
- `DiskDevice`: `Disk.java`.
- `FastDiskDevice`: `FastDisk.java`.
- `FileSystem`: `FileSys.java`.
- `KernelFs`: the file handlers of `Kernel.java`, each a method on the `FileSys` object proved equal to a specification function on whole states.
- `KernelFsProps`: the invariants and round trips of those specification functions.
- `KernelCodes`: the interrupt, system-call and error constants.
- `Processes`: `Kernel.Launcher`, `doExec` and `doJoin`.
- `KernelEntry`: `Kernel.interrupt` and `doPowerOn`.
- `DirEntries`: the 16-byte directory entries of `FileTester.java`.
- `Shell`: the other `FileTester.java` helpers.

Java values are modelled as follows:

- Bytes are unsigned values `0..255`, the `b & 0xff` of a Java byte.
- `(char) b` sign-extends.
- `(byte) c` keeps the low eight bits.
- An exception is an explicit outcome: `Threw`, `None` or `null`.

## Model

| member | source | states |
|---|---|---|
| JavaTypes.Wrap32 | src/minikernel/FastDisk.java:41-47 | two's-complement wrap of an int expression: the result is in int range and congruent to the input modulo 2^32 |
| JavaTypes.ByteCharRoundTrip | src/minikernel/FileTester.java:357-362 | casting a byte to char and back gives the same byte |
| JavaTypes.NameInjective | src/minikernel/Kernel.java:513-514 | under the model's one-character-per-byte decoding, two byte strings with the same text are equal |
| JavaTypes.TrimShape | src/minikernel/Kernel.java:701-722 | `trim()` leaves no character up to ' ' at either end, and its result is the contiguous slice of the input between a leading and a trailing run of such characters |
| JavaTypes.TrimIdempotent | src/minikernel/FileTester.java:120-123 | trimming twice is trimming once |
| JavaTypes.TrimPadded | src/minikernel/Kernel.java:701-722 | a name followed by zero-byte padding trims like the name alone |
| Blocks.BlockOfWithBlock | src/minikernel/FastDisk.java:41-61 | reading back a block just written yields what was written, and other blocks are unchanged |
| Blocks.WithBlockTwice | src/minikernel/FastDisk.java:55-61 | a second write to the same block hides the first |
| Blocks.WithBlockCommute | src/minikernel/FastDisk.java:55-61 | writes to different blocks commute |
| Blocks.ArrayCopy | src/minikernel/FastDisk.java:41-61 | `System.arraycopy` between distinct arrays: the destination range takes the source range and nothing else changes |
| FastDiskDevice.FormatImageLayout | src/minikernel/FastDisk.java:65-70 | after format, bytes 1 .. size-1 of block 0 are '0' and every other byte is zero |
| FastDiskDevice.SlotAligned | src/minikernel/FastDisk.java:41-47 | the wrapped offset `blockNumber * 512` is always block-aligned, and equals the block for small block numbers |
| FastDiskDevice.WrappedBlockNumber | src/minikernel/FastDisk.java:41-47 | there is no range check: block 1 << 23 wraps onto block 0 |
| FastDiskDevice.FastDisk.constructor | src/minikernel/FastDisk.java:25-33 | a size in 1 .. 2^15-1 gives a disk holding the host image or a formatted one, with both counters at zero |
| FastDiskDevice.FastDisk.Create | src/minikernel/FastDisk.java:25-33 | construction succeeds exactly when the size is accepted (Disk's checks plus the 2^15 bound) |
| FastDiskDevice.FastDisk.Read | src/minikernel/FastDisk.java:41-47 | the buffer's first 512 bytes become the addressed block, the read counter goes up by one, and a bad block or short buffer throws with nothing changed |
| FastDiskDevice.FastDisk.Write | src/minikernel/FastDisk.java:55-61 | exactly the addressed block becomes the buffer's first 512 bytes, the write counter goes up by one, and a bad block or short buffer throws with nothing changed |
| FastDiskDevice.FastDisk.Format | src/minikernel/FastDisk.java:65-70 | the image becomes the formatted layout |
| FastDiskDevice.FastDisk.GetBlockSize | src/minikernel/FastDisk.java:72-74 | the block size is 512 |
| FastDiskDevice.FastDisk.BeginRead | src/minikernel/FastDisk.java:87-90 | always throws |
| FastDiskDevice.FastDisk.BeginWrite | src/minikernel/FastDisk.java:101-104 | always throws |
| FastDiskDevice.FormatArray | src/minikernel/FastDisk.java:65-70 | the format loop builds the formatted layout |
| FastDiskDevice.WriteThenRead | src/minikernel/FastDisk.java:41-61 | a write of a block followed by a read of it hands back the written bytes |
| DiskDevice.SeekTime | src/minikernel/Disk.java:207-214 | the delay is exactly 10 ms plus one ms per whole five blocks of seek distance |
| DiskDevice.SeekTimeMonotone | src/minikernel/Disk.java:207-214 | a longer seek never sleeps less |
| DiskDevice.Disk.constructor | src/minikernel/Disk.java:115-157 | the disk holds the host image when one exists, or zeros; it is idle with nothing queued and the head at block 0 |
| DiskDevice.Disk.Create | src/minikernel/Disk.java:115-157 | construction fails exactly on a host image of the wrong size or a size below 1 |
| DiskDevice.Disk.Format | src/minikernel/Disk.java:164-180 | every byte becomes zero |
| DiskDevice.Disk.BeginResult | src/minikernel/Disk.java:223-246 | the arguments are checked before the busy flag: accepted iff legal and idle, refused as busy iff legal and busy |
| DiskDevice.Disk.BeginRead | src/minikernel/Disk.java:223-246 | an accepted read is recorded as the queued request, and a refused one changes nothing |
| DiskDevice.Disk.BeginWrite | src/minikernel/Disk.java:255-278 | an accepted write is recorded as the queued request, and a refused one changes nothing |
| DiskDevice.Disk.WaitForRequest | src/minikernel/Disk.java:281-291 | a queued request is picked up and the disk becomes busy; with none, nothing changes |
| DiskDevice.Disk.Transfer | src/minikernel/Disk.java:321-333 | exactly one block moves between the image and the caller's buffer, in the requested direction |
| DiskDevice.Disk.FinishOperation | src/minikernel/Disk.java:294-306 | the disk becomes idle with the head at the target block |
| DiskDevice.Disk.ServeOne | src/minikernel/Disk.java:313-338 | one turn of the controller: it serves the queued request with the seek delay and the transfer, and leaves the disk idle with nothing queued |
| DiskDevice.BeginWhileBusy | src/minikernel/Disk.java:235-238 | a `beginRead` and a `beginWrite` while a transfer runs are both refused, and the running request is kept |
| DiskDevice.SecondBeginReplacesPending | src/minikernel/Disk.java:223-246 | a second begin before the controller picks up the first replaces the queued request |
| FileSystem.StoredName | src/minikernel/FileSys.java:30-71 | the name field of a block is its first 32 bytes cast to chars |
| FileSystem.MountedTable | src/minikernel/FileSys.java:30-71 | the mounted table: slot 0 empty, slot i named iff free-map byte i is '1', holding the block's name field |
| FileSystem.ReadName | src/minikernel/FileSys.java:47-52 | one read in the mount loop yields block i's name field |
| FileSystem.MountSlot | src/minikernel/FileSys.java:45-55 | one turn of the mount loop fills slot i as the mounted table says, reading only marked blocks |
| FileSystem.FileSys.constructor | src/minikernel/FileSys.java:30-71 | the table is the mounted table; the disk is read once per marked slot plus the free map, and never written |
| FileSystem.FileSys.Mount | src/minikernel/FileSys.java:30-71 | mounting fails exactly when the free map marks a slot beyond the end of the disk; the image is never changed, and the read count grows by the reads made, on success and before the throw alike |
| FileSystem.MountUntilFault | src/minikernel/FileSys.java:38-54 | on a free map that marks a slot beyond the disk, the loop reads the free map and every marked block below the disk size, then throws; nothing is written |
| FileSystem.FileSys.GetBlockSizeOfDisk | src/minikernel/FileSys.java:79-81 | 512 |
| FileSystem.FileSys.UpdateFileTable | src/minikernel/FileSys.java:91-93 | only the given slot changes; an index outside the table throws with nothing changed |
| FileSystem.FormattedMountsEmpty | src/minikernel/FileSys.java:30-71 | a freshly formatted disk of at most 100 blocks mounts cleanly with an empty table |
| KernelFs.FindFrom | src/minikernel/Kernel.java:701-722 | the scan from slot i finds the first slot whose trimmed name matches, or reports not-found, or faults when it runs past the table |
| KernelFs.FindTargetFirstMatch | src/minikernel/Kernel.java:701-722 | any matching slot with no earlier match is the block found |
| KernelFs.FindTargetNoMatch | src/minikernel/Kernel.java:701-722 | with no match, the result is -1, or the fault on a disk of more than 100 blocks |
| KernelFs.FindTargetBlock | src/minikernel/Kernel.java:701-722 | findTargetBlock returns the lookup the specification function gives |
| KernelFs.DupFrom | src/minikernel/Kernel.java:513-522 | no duplicate iff no slot marked in use holds the name, and none lacks a name |
| KernelFs.FreeFrom | src/minikernel/Kernel.java:524-532 | the first free block in the free map, none, or the fault past the 512-byte map |
| KernelFs.Create | src/minikernel/Kernel.java:498-560 | -1 iff the name is over 32 bytes or a duplicate, with the state unchanged; success costs one read and two writes |
| KernelFsProps.CreatedImage | src/minikernel/Kernel.java:524-550 | a create that returns 0 writes the name block to the first free block (or block 1), marks that block '1' in the free map and names its table slot; image and table change in no other way |
| KernelFs.CreateAt | src/minikernel/Kernel.java:534-559 | a successful create names slot t; otherwise the table is unchanged; within the table it either succeeds or throws with nothing changed |
| KernelFs.Read | src/minikernel/Kernel.java:567-592 | 0 iff the name is found and -1 iff it is not; nothing but the read counter changes |
| KernelFs.WritePayloadLayout | src/minikernel/Kernel.java:600-629 | the written block is the name, zeros up to byte 32, then the first 480 bytes of the buffer |
| KernelFs.Write | src/minikernel/Kernel.java:600-629 | -1 iff the name is not found; the table and read counter never change; a failure changes nothing |
| KernelFs.WriteAt | src/minikernel/Kernel.java:608-628 | the write either succeeds or throws with nothing changed |
| KernelFs.Delete | src/minikernel/Kernel.java:636-672 | -1 iff the name is not found; a failure changes nothing |
| KernelFs.Format | src/minikernel/Kernel.java:481-490 | the image is formatted, the table is kept, and the result is 0 |
| KernelFs.DoCreateFile | src/minikernel/Kernel.java:498-560 | the handler's result and new state are those of Create |
| KernelFs.DoRead | src/minikernel/Kernel.java:567-592 | the handler's result and new state are those of Read, and it shows the file's block |
| KernelFs.DoWrite | src/minikernel/Kernel.java:600-629 | the handler's result and new state are those of Write |
| KernelFs.DoDelete | src/minikernel/Kernel.java:636-672 | the handler's result and new state are those of Delete |
| KernelFs.DoFormat | src/minikernel/Kernel.java:481-490 | the handler's result and new state are those of Format |
| KernelFs.DuplicateCheck | src/minikernel/Kernel.java:513-522 | the duplicate loop returns what DupFrom says |
| KernelFs.CreateTargetOf | src/minikernel/Kernel.java:524-532 | the free-block loop picks the first free block, or block 1 when none is free, or faults past the map |
| KernelFs.WriteNewFile | src/minikernel/Kernel.java:534-559 | the writes of create are those of CreateAt |
| KernelFs.EraseFile | src/minikernel/Kernel.java:645-670 | the steps of delete are those of DeleteAt: the block is zeroed, the slot cleared and the block marked free |
| KernelFsProps.MountConsistent | src/minikernel/FileSys.java:30-71 | a mount that succeeds on a disk of at most 100 blocks yields a table consistent with the disk |
| KernelFsProps.ConsistentNoFault | src/minikernel/Kernel.java:513-532 | in a consistent state, neither the lookup, nor the duplicate check, nor the free-block search faults |
| KernelFsProps.CreatePreserves | src/minikernel/Kernel.java:498-560 | doCreateFile keeps table and disk consistent |
| KernelFsProps.CreateFailsCleanly | src/minikernel/Kernel.java:498-560 | a create that does not return 0 leaves image and table unchanged |
| KernelFsProps.DeletePreserves | src/minikernel/Kernel.java:636-672 | doDelete keeps table and disk consistent |
| KernelFsProps.WritePreserves | src/minikernel/Kernel.java:600-629 | doWrite keeps table and disk consistent |
| KernelFsProps.FoundNameFits | src/minikernel/Kernel.java:701-722 | in a consistent state, a name that is found fits the 32-byte field |
| KernelFsProps.CreateThenFind | src/minikernel/Kernel.java:498-560 | a created file with a clean name is found in the block it was given |
| KernelFsProps.CreateThenDelete | src/minikernel/Kernel.java:636-672 | deleting a just-created file restores the table, and the image up to that block being zeroed |
| KernelFsProps.CreateOnFullDisk | src/minikernel/Kernel.java:524-559 | on a full disk, create still returns 0 and overwrites block 1 and slot 1 |
| KernelFsProps.FormatLeavesStaleTable | src/minikernel/Kernel.java:481-490 | after format the old names are still found, and the table no longer agrees with the disk |
| KernelFsProps.RemountAgrees | src/minikernel/FileSys.java:30-71 | remounting a consistent file system rebuilds a table with the same lookups |
| KernelFsProps.WriteThenRead | src/minikernel/Kernel.java:567-629 | after a write returns 0, the file is still found, and its block holds the name and the first 480 bytes of the buffer |
| KernelEntry.Route | src/minikernel/Kernel.java:243-313 | the dispatch: bad argument iff the kind is unknown or the user call number is out of range; disk and power-on by kind |
| KernelEntry.Code | src/minikernel/Kernel.java:41-139 | the (kind, number) a caller passes routes to the handler intended |
| KernelEntry.RouteCode | src/minikernel/Kernel.java:248-294 | each user call number reaches one handler, and encoding it gives the number back |
| KernelEntry.Answer | src/minikernel/Kernel.java:306-311 | an exception becomes ERROR_BAD_ARGUMENT; a returned value passes through |
| KernelEntry.FileCall | src/minikernel/Kernel.java:265-287 | the file-system cases: format gives 0, write or delete on a non-string gives ERROR_BAD_ARGUMENT, readdir and shutdown give 0, the block-size call gives 512, and create/read/write/delete give 0 or -1 |
| KernelEntry.FileCallPreserves | src/minikernel/Kernel.java:265-287 | every file call but format keeps the file system consistent |
| KernelEntry.GetBytes | src/minikernel/Kernel.java:274-277 | `getBytes` gives the per-character byte encoding |
| KernelEntry.Kernel.constructor | src/minikernel/Kernel.java:731-779 | before power-on there is no file system and the process table is empty with the counter at 1 |
| KernelEntry.Kernel.FileSyscall | src/minikernel/Kernel.java:265-287 | the file cases of interrupt give the result and state FileCall says |
| KernelEntry.ExecResult | src/minikernel/Kernel.java:441-454 | a bad cast gives ERROR_BAD_ARGUMENT; then a null command gives ERROR_BAD_COMMAND, an unknown class ERROR_NO_CLASS, a class without main ERROR_NO_MAIN; otherwise the next process id |
| KernelEntry.Kernel.ExecCall | src/minikernel/Kernel.java:256-257 | the result is ExecResult's; a failure leaves the process table unchanged; a success registers a fresh launcher under the old counter and advances it |
| KernelEntry.Kernel.DoPowerOn | src/minikernel/Kernel.java:321-362 | the cache size is recorded, o1 is taken as the disk and mounted, and the result is 0 iff o1 is a disk that mounts and o2 is a string or null |
| KernelEntry.Kernel.Interrupt | src/minikernel/Kernel.java:243-313 | every case of the switch with its result and effect on the file system and process table; power-on records the cache size, takes o1 as the disk and, when it mounts, a fresh file system with the mounted table, keeping the old one otherwise; other state stays unchanged |
| KernelEntry.Kernel.UserCall | src/minikernel/Kernel.java:248-294 | the user cases of the switch, by system-call number, with exec's full error mapping and table effect |
| KernelEntry.InputResult | src/minikernel/Kernel.java:390-402 | 0 iff a buffer was given and a line was read; ERROR_END_OF_FILE at the end of input |
| Processes.ProcessTable.constructor | src/minikernel/Kernel.java:733-736 | the table starts empty with the counter at 1 |
| Processes.ProcessTable.JoinOne | src/minikernel/Kernel.java:815-829 | a joined process leaves the table and its return code comes back; an unknown id gives ERROR_NO_SUCH_PROCESS |
| Processes.Launcher.constructor | src/minikernel/Kernel.java:757-779 | the launcher takes the next id and registers under it |
| Processes.Launcher.Create | src/minikernel/Kernel.java:757-779 | a null command, an unknown class and a class without main fail before an id is taken; success registers a fresh id |
| Processes.Launcher.Run | src/minikernel/Kernel.java:782-796 | an exception escaping main sets the return code to ERROR_IN_CHILD |
| Processes.Launcher.Delete | src/minikernel/Kernel.java:832-836 | only this launcher's id leaves the table |
| Processes.ExecError | src/minikernel/Kernel.java:441-454 | each launch failure maps to its own negative code |
| Processes.DoExec | src/minikernel/Kernel.java:441-454 | a positive id iff the command names a class with main; the id is the old counter and was unused; failures leave the table alone |
| Processes.DoJoin | src/minikernel/Kernel.java:460-462 | the result of joinOne |
| Processes.ExecTwice | src/minikernel/Kernel.java:757-779 | two successful launches get consecutive, previously unused ids |
| Processes.ExecRunJoinTwice | src/minikernel/Kernel.java:815-829 | a finished process is joined once with its code; a second join finds nothing |
| Processes.DeleteKeepsOthers | src/minikernel/Kernel.java:832-836 | delete keeps every other registered process |
| DirEntries.WholeStep | src/minikernel/FileTester.java:349 | a buffer of whole 16-byte entries starts with one and continues with whole entries |
| DirEntries.EntryBlock | src/minikernel/FileTester.java:350 | an entry's block number is its big-endian first two bytes, below 65536 |
| DirEntries.NameEnd | src/minikernel/FileTester.java:355-360 | the name runs up to the first zero byte within the 13-byte field |
| DirEntries.EntryName | src/minikernel/FileTester.java:355-360 | the name is the non-zero prefix of the 13-byte field |
| DirEntries.MatchEnd | src/minikernel/FileTester.java:458-463 | the comparison loop stops at the first mismatching character or at the end of the string |
| DirEntries.EntryTestAsWrittenMeaning | src/minikernel/FileTester.java:458-466 | as written, an entry matches iff its field starts with the string and the byte after it is zero; it throws for a 13-character match in the last entry |
| DirEntries.DirSearchAsWritten | src/minikernel/FileTester.java:454-469 | the search returns a block number below 65536 or throws |
| DirEntries.MatchEndAt | src/minikernel/FileTester.java:458-463 | the comparison loop computes MatchEnd |
| DirEntries.DirSearchName | src/minikernel/FileTester.java:454-469 | dirSearch(buf, String) returns what the as-written search says |
| DirEntries.EntryMatchesName | src/minikernel/FileTester.java:454-469 | the corrected test matches iff the entry's name is the string's encoding |
| DirEntries.DirSearchAgrees | src/minikernel/FileTester.java:454-469 | for every name whose length is not exactly 13, the as-written and corrected searches agree |
| DirEntries.NameEndAt | src/minikernel/FileTester.java:483-486 | the name loop of dirSearch(buf, int) stops where NameEnd says |
| DirEntries.DirSearchByBlock | src/minikernel/FileTester.java:477-491 | dirSearch(buf, int) returns the name of the first entry with that block, or null |
| DirEntries.ListingShape | src/minikernel/FileTester.java:343-390 | the listing shows only non-zero blocks with names up to 13 bytes, and stops exactly after the first link entry |
| DirEntries.DumpDir | src/minikernel/FileTester.java:343-390 | dumpDir prints the listing; the result is -1 after a link, n otherwise, and a negative readdir result is passed through |
| DirEntries.EntryAt | src/minikernel/FileTester.java:350-363 | one entry of the dump loop decodes as EntryLine |
| DirEntries.NameOf | src/minikernel/FileTester.java:354-361 | the StringBuffer loop builds the chars of the given bytes |
| DirEntries.EncodeDir | src/minikernel/FileTester.java:343-390 | an encoded directory consists of whole entries |
| DirEntries.EntryRoundTrip | src/minikernel/FileTester.java:349-363 | decoding an encoded entry gives its block, kind and name back |
| DirEntries.ListingRoundTrip | src/minikernel/FileTester.java:343-390 | the dump of an encoded directory without links or zero blocks is that directory |
| DirEntries.DirSearchEncoded | src/minikernel/FileTester.java:454-469 | on an encoded directory, the corrected search finds the first line with the name |
| DirEntries.DirSearchBlockEncoded | src/minikernel/FileTester.java:477-491 | on an encoded directory, the search by block finds the first line with that block |
| DirEntries.SearchesInverse | src/minikernel/FileTester.java:454-491 | for a line with no earlier block or name twin, each search finds the other's key |
| DirEntries.ThirteenCharsMissed | src/minikernel/FileTester.java:458-466 | for a 13-character name, as written, the search throws on the last entry, finds the entry when the next entry's block is below 256 (its high byte is 0), and skips it when that block is 256 or more; the corrected search always finds it |
| DirEntries.DirSearchThirteenChars | src/minikernel/FileTester.java:458-466 | a concrete directory where the as-written search returns 0 or throws and the corrected one returns 5 |
| Shell.FirstUsage | src/minikernel/FileTester.java:221-229 | the first help line the command is a prefix of, if any |
| Shell.Help | src/minikernel/FileTester.java:221-229 | help(cmd) prints the message HelpMessage gives |
| Shell.HelpMessageMeaning | src/minikernel/FileTester.java:221-229 | the unknown-command message iff no help line starts with cmd; otherwise the usage of the first line that does |
| Shell.Classify | src/minikernel/FileTester.java:113-134 | end of input on null, comments echoed only from a file, blank lines and block comments skipped, and any other line a command with its trimmed text |
| Shell.ClassifyTrimmed | src/minikernel/FileTester.java:120-123 | classification is stable under trim, and a command has no blank at either end |
| Shell.IndexOf | src/minikernel/FileTester.java:265-276 | indexOf finds the first occurrence at or after the start |
| Shell.PayloadStartMeaning | src/minikernel/FileTester.java:265-276 | with no space the payload starts at 0, with one at the end, and otherwise just after the second space |
| Shell.WriteCommandPayload | src/minikernel/FileTester.java:263-283 | for `write name data`, the payload is the data |
| Shell.WriteTestBuffer | src/minikernel/FileTester.java:277-281 | the buffer is max(blockSize, payload length) bytes: the payload's bytes, then zeros |
| Shell.Grow | src/minikernel/FileTester.java:300-305 | the doubled buffer size covers both the start size and the length |
| Shell.GrowMinimal | src/minikernel/FileTester.java:300-305 | the buffer is doubled only when needed |
| Shell.Taken | src/minikernel/FileTester.java:295-299 | the lines before the first "." |
| Shell.CollectMeaning | src/minikernel/FileTester.java:291-318 | writeLines either stores every line up to "." with newlines or stops on an exactly full buffer |
| Shell.WriteLines | src/minikernel/FileTester.java:291-318 | the buffer holds the collected bytes followed by zeros, at the doubled size, and the lines read are counted |
| Shell.ShowCharReadsBack | src/minikernel/FileTester.java:323-337 | every single byte's display reads back as that byte |
| Shell.ShowCharInjective | src/minikernel/FileTester.java:323-337 | distinct bytes display differently |
| Shell.ShowAllAmbiguous | src/minikernel/FileTester.java:324-334 | as written, the bytes `\001` and the byte 1 display the same |
| Shell.ShownRoundTrip | src/minikernel/FileTester.java:323-337 | with the backslash escaped first, any byte string's display reads back as that string |

## Left out

- Threads, `wait`/`notify`, `sleep`: the controller thread of `Disk.run` is one step, `ServeOne`. The seek delay is returned as a number, and the completion interrupt is not sent.
- `Launcher.start`, `joinAll` and `doExecAndWait`: running a program is one step (`Run`) that records whether it faulted. Blocking on a still-running process is not modelled.
- Reflection: `Class.forName` and `getMethod("main")` become a `Registry` map from command name to "has a main method".
- Console I/O: `doOutput`, `printf` and the messages the handlers print are left out. `doInput` is modelled through the console's next line as a parameter. The `IOException` path (`ERROR_IO`) is left out.
- `Disk.flush`, the host `DISK` file and `doShutdown`'s flush: the host image is a constructor parameter, and the shutdown call returns 0 with no effect.
- `doReadDir` prints the table. Only its result 0 is modelled.
- Charsets: `new String(byte[])` and `getBytes()` use the platform charset (UTF-8 on current JVMs). The model uses the per-byte `(char)` cast and its inverse instead. The two agree only on 7-bit text, so the members below are faithful only for file names whose bytes are all below 128.
- JavaTypes.NameInjective: Java's UTF-8 decoding maps every malformed byte to U+FFFD and is not injective; the lemma holds of the model's per-byte decoding only.
- KernelFs.Create: the 32-byte length check counts the bytes `getBytes()` produces, which under UTF-8 can be several per character; the model counts one byte per character.
- KernelFsProps.MountConsistent: the mount loop builds names with `(char)` casts (FileSys.java:51) while doCreateFile stores `new String(pathName)` (Kernel.java:550); under UTF-8 these differ on bytes 128..255, which the model does not capture.
- KernelFsProps.RemountAgrees: for the same reason, a file created under a name with a byte 128..255 would not be found after a remount in Java; the lemma holds for 7-bit names only.
- `Library`'s wrappers, `Boot` and `Main` are not part of this model. `Library.readlink` always fails with -1, so `DumpDir` ends with -1 at the first link entry. `Library.readdir` leaves the caller's buffer untouched, so `dumpDir` and `dirSearch` are modelled on any buffer of whole entries.
- `FileTester`'s `pwd`, `readTest`, `StringTokenizer` dispatch and command implementations beyond line classification are left out.
- `Shell.WriteLines`: the `IOException` result -1 is not modelled, and `blockSize > 0` is required. The shell always passes 512.
- `DirEntries.DirSearchName`, `DirEntries.DirSearchByBlock` and `DirEntries.DumpDir` require a buffer whose length is a multiple of 16. The shell's buffers are 512 bytes.
- Disk sizes are limited to `MaxIntBlocks` so that the byte count fits a Java int. The overflow path of `Disk(size)` is not modelled.

### Where the code and its description differ

The model follows the code in each case below.

- A second `beginRead`/`beginWrite` after a request is queued, but before the controller picks it up, replaces the queued request (`SecondBeginReplacesPending`). The described controller refuses any second outstanding request.
- `Disk`'s comment says an absent `DISK` file gives random junk, but the code formats the disk to zeros.
- `doFormat` formats the disk but leaves the in-memory table as it was (`FormatLeavesStaleTable`).
- `doCreateFile` on a disk with no free block picks block 1 and overwrites the file there (`CreateOnFullDisk`).
- `writeLines` stops once its buffer is exactly full, leaving the remaining lines unread and that line's newline unstored (`StoppedFull`).

## Findings

| source | as written | input that shows it | evidently intended | confidence | as-written member | corrected member |
|---|---|---|---|---|---|---|
| src/minikernel/FileTester.java:458-466 | `dirSearch(buf, String)` tests the byte after the name, `buf[offset + j + 3]` with `j == s.length()`, even for a 13-character name that fills the field. That byte is the high byte of the next entry's block, so the entry is missed when that block is 256 or more; for the last entry it lies past the buffer and the search throws. | the entry (5, 'O', "abcdefghijklm") followed by the entry for block 256: the search returns 0; alone, it throws | a 13-character name filling the field matches, and the search returns 5 | not executed | DirEntries.DirSearchThirteenChars | DirEntries.DirSearchEncoded |
| src/minikernel/FileTester.java:324-334 | `showChar` tests for the printable range before the backslash, so the `\\` escape is never used and a backslash prints as itself | the bytes `\001` and the single byte 1 both display as `\001` | a backslash displays as `\\`, so every display reads back uniquely | not executed | Shell.ShowAllAmbiguous | Shell.ShownRoundTrip |
