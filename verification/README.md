# Verified model of the kernel loader and its SBIOS

A model, in Dafny, of the parts of the PlayStation 2 Linux loader whose correctness depends on more
than one function: the asynchronous RPC layer of the SBIOS, the loader's CRC, the checking, copying and
verifying of ELF segments and the placement of the initrd, the search for the SBIOS call table in
compiled code, the configuration file, the on-screen boot log, and the small stores (error messages,
kernel semaphores, command-line options) that have to behave like a plain list.

`dafny verify dfyconfig.toml` checks the whole project.

## How it is organised

Code that updates globals or buffers is a class, or a method over an array, with the source's loops. Each
such method is proved to take exactly the step of a function on values; the results below are lemmas about
those functions, over all inputs and over runs of any length.

- `SifRpc` is the RPC layer the SBIOS calls (TGE/sbios/sifrpc.c). A no-wait request is refused, with no
  callback, or accepted; an accepted request has its reply written to memory by the IOP in one step and its
  callback run in a later step. A call into the SBIOS and a callback are each one step. `Cdvd` and `IopHeap`
  hold for every layer that does this, with replies in any order; `McCard`, whose requests all share one RPC
  client, also models the client: it takes one request at a time.
- `Cdvd` / `CdvdDriver`, `McCard` / `McCardDriver` and `IopHeap` are the three request layers on top of it;
  `CdvdCalls` says when CDVD calls are accepted and that each can be brought to be served.
- `Crc32` represents a machine word by its bits, most significant first.
- `PhysMem`, `Elf`, `ElfFormat`, `ElfLoad`, `ElfVerify`, `Initrd` work on all of physical memory as one byte
  array. Every pointer is used after the PHYSADDR mask (loader/memory.h:20), and the ELF file lies in the same
  memory that the copy writes.
- `CallTable` sets the loader's scan beside a MIPS machine on which every instruction the scan does not follow
  may write any registers; `CallTableCode` builds instruction words and the code that dispatches a call.
- `Config`, `BootLog`, `BootPanel`, `ErrorQueue`, `Semaphores` and `CommandLine` follow the files of the
  same purpose.

## Where the code does not do what one would expect

Each has a lemma with an input that shows it, and a lemma that says exactly when the code is right.

- A memory-card request whose packet cannot be sent is refused and releases `lastCmd`, but the RPC layer
  leaves the client in use (TGE/sbios/sifrpc.c:142-156, 209-238). A later request can still be sent exactly
  when no send has failed so far (`McCard.ServesIffNoSendFailed`, `McCard.OneFailedSend`).
- `check_sections32` accepts a segment whose end wraps 32 bits. Copying a segment that passed stays inside
  the checked range exactly when its file part ends there (`ElfLoad.PassedWritesInside`,
  `ElfLoad.WrappingSegmentPasses`). The results about accepted kernels assume that no segment wraps.
- `verify_sections32` is documented to check that the sections were copied correctly, but for a cleared
  tail it looks at the first byte only. Not panicking means that the file is loaded exactly when no segment
  has a tail of more than one byte (`ElfVerify.VerifyTrust`, for one segment `ElfVerify.SegmentTrust`);
  `ElfVerify.MissedTail` gives a memory that passes with a tail that is not clear.
- For a segment longer in the file than in memory the difference of the sizes wraps, and `verify_sections32`
  asks for a zero byte after the file part: it panics after a correct copy exactly when that byte is not zero
  (`ElfVerify.VerifyAfterCopyIff`, `ElfVerify.OverlongPanics`).
- The initrd placement accepts a file whose size could not be determined (`ftell` returning -1), as 4 GiB
  less one byte. Otherwise a successful placement is always a good one (`Initrd.PlacedIffMeasured`,
  `Initrd.UnmeasuredInitrdPlaced`).
- Loading a saved configuration does not restore the video parameter text when a video mode item is
  registered with no text item for the video parameter after it, unless the text happens to be the mode's
  default (`Config.SaveThenLoad`, `Config.VideoModeLast`). The loader itself registers the mode first
  (loader/main.cpp:156, 166).
- A number is saved through a buffer of 2048 bytes: when its line is 2047 characters long the newline becomes
  a NUL, and the next item is not read back (`Config.FullLineHidesNext`). The file holds each item on a line
  of its own exactly when every number's line leaves room for its newline (`Config.LinePerItemIff`).
- `hasCommandlineOption` misses an option on some command line exactly when the option overlaps itself
  from just after one of its own spaces (`CommandLine.RightIffNoOverlap`, `CommandLine.TrapMisses`). The one
  option the loader asks for has no space.

## Model

| member | source | states |
|---|---|---|
| `Cdvd.LocksGuardOneRequest` | TGE/sbios/scmd.c:480-540 | over every run of calls, refusals, replies and callbacks, the S mutex is held exactly while one S-class request is in flight, the N mutex exactly while one N-class request is, never two of either, and the "mutex err" branch of sbios_unlock is never reached |
| `Cdvd.CounterDecidesBinds` | TGE/sbios/cdvd.c:131-304 | over every run, the counter determines which of the five services are bound, at most one init request is in flight and it is the counter's own stage, and a disk-ready, N or S request is in flight only once its service is bound |
| `Cdvd.CounterRisesByOne` | TGE/sbios/cdvd.c:131-202 | the counter rises by one exactly in the callback of its own init request, when the bind was answered with a server (or at stage 3), and never changes otherwise |
| `Cdvd.BuffersHoldTheirRequest` | TGE/sbios/scmd.c:145-233 | while a request is in flight nothing rewrites the command it sent, and nothing rewrites its reply between landing and callback |
| `Cdvd.EveryCallEndsOnce` | TGE/sbios/scmd.c:110-233 | over every run an accepted call is in flight or ended, exactly once, and every end call carries the outcome of that call's own reply |
| `Cdvd.CallbackHonest` | TGE/sbios/ncmd.c:285-310 | what a callback reads out of the shared buffers is the outcome of its own reply: result, returned data, and the clipped length and bytes of a table of contents |
| `Cdvd.Drains` | TGE/sbios/scmd.c:161-167 | from any reachable state replies and callbacks alone finish what is in flight and free both locks |
| `Cdvd.ZeroMeansAccepted` | TGE/sbios/scmd.c:127-183 | a call returns 0 exactly when it was accepted; every other return leaves both mutexes, the stage and what is in flight unchanged |
| `CdvdCalls.AcceptedIff` | TGE/sbios/scmd.c:480-540 | in every state each call is sent exactly when its mutex is free, its RPC client idle, its service bound and the send accepted; otherwise it is answered on the spot or refused with its own code, and both mutexes and what is in flight stay as they were |
| `CdvdCalls.EveryCallServed` | TGE/sbios/cdvd.c:131-304 | from every reachable state some run completes the six-stage bind and then has any given call in flight |
| `CdvdCalls.SCommandReadBack` | TGE/sbios/scmd.c:127-233 | number and words of each S command, read back by the command numbers, give the command |
| `CdvdCalls.NCommandReadBack` | TGE/sbios/ncmd.c:146-234 | number and words of each N command, read back field by field, give its arguments |
| `CdvdCalls.TocClipped` | TGE/sbios/ncmd.c:285-310 | the length of a table of contents is the smaller of the length asked for and 2064 on a DVD or 1024 on a CD |
| `CdvdCalls.OutcomeFields` | TGE/sbios/scmd.c:110-211 | what callers are told is these words of their replies |
| `Cdvd.StepKeeps` | TGE/sbios/ncmd.c:890-947 | every step of the CDVD layer keeps the whole invariant: locks, bind stage, buffers and finished calls |
| `Cdvd.DoInitKeeps` | TGE/sbios/cdvd.c:209-304 | an init call at any stage, locked out, refused or accepted, keeps the invariant |
| `Cdvd.DoReadyKeeps` | TGE/sbios/cdvd.c:438-464 | a disk-ready call keeps the invariant, though it writes its mode buffer before checking the bind |
| `Cdvd.DoSKeeps` | TGE/sbios/scmd.c:591-644 | every S command keeps the invariant, including the emulated media-mode command |
| `Cdvd.DoNKeeps` | TGE/sbios/ncmd.c:146-234 | every N command keeps the invariant |
| `Cdvd.CallbackKeeps` | TGE/sbios/cdvd.c:421-431 | every completion callback keeps the invariant and unlocks the mutex its own request holds |
| `Cdvd.PackedFieldsRecoverable` | TGE/sbios/scmd.c:599-603 | the packed configuration word, and the packed read mode, give back each of their byte fields |
| `CdvdDriver.Mutex.TryLock` | TGE/sbios/mutex.c:16-33 | takes a free mutex and returns 0; returns -2 for a held one, leaving it held |
| `CdvdDriver.Mutex.Unlock` | TGE/sbios/mutex.c:38-54 | leaves the mutex free and reports an error exactly when it was free before |
| `CdvdDriver.Driver.LockS` | TGE/sbios/scmd.c:480-500 | locking, backed out when the RPC client is busy, is the model's step on the two mutexes |
| `CdvdDriver.Driver.LockN` | TGE/sbios/ncmd.c:890-907 | the same for the N mutex |
| `CdvdDriver.Driver.CheckSCmd` | TGE/sbios/scmd.c:524-540 | ready only with the lock held and the service bound, else the lock is given back |
| `CdvdDriver.Driver.CheckNCmd` | TGE/sbios/ncmd.c:931-947 | the same for N commands |
| `CdvdDriver.Driver.CdvdInit` | TGE/sbios/cdvd.c:209-304 | return value and whole new state are those of the model's init step |
| `CdvdDriver.Driver.CdvdReady` | TGE/sbios/cdvd.c:438-464 | return value and whole new state are those of the model's disk-ready step |
| `CdvdDriver.Driver.SCommand` | TGE/sbios/scmd.c:127-233 | return value and whole new state are those of the model's S-command step |
| `CdvdDriver.Driver.NCommand` | TGE/sbios/ncmd.c:146-197 | return value and whole new state are those of the model's N-command step |
| `CdvdDriver.Driver.InitCompleted` | TGE/sbios/cdvd.c:131-202 | the init callback is the model's callback step, driven by the counter |
| `CdvdDriver.Driver.DiskReadyCompleted` | TGE/sbios/cdvd.c:421-431 | the disk-ready callback is the model's callback step |
| `CdvdDriver.Driver.ReadRtcStage2` | TGE/sbios/scmd.c:110-120 | reading the clock out of the reply and unlocking is the model's callback step |
| `CdvdDriver.Driver.SCmdStage2` | TGE/sbios/scmd.c:161-167 | the same for a result alone |
| `CdvdDriver.Driver.TrayRequestStage2` | TGE/sbios/scmd.c:200-211 | the same for the tray count and the inverted result |
| `CdvdDriver.Driver.MmodeStage2` | TGE/sbios/scmd.c:393-399 | the same for the media mode, which reports 1 whatever the reply |
| `CdvdDriver.Driver.ConfigStage2` | TGE/sbios/scmd.c:562-573 | the same for opening and closing the configuration, with a status |
| `CdvdDriver.Driver.ReadConfigStage2` | TGE/sbios/scmd.c:575-589 | the same for a configuration block |
| `CdvdDriver.Driver.AlignReadBuffer` | TGE/sbios/ncmd.c:111-126 | a finished read hands on the area its data is copied from, and is the model's callback step |
| `CdvdDriver.Driver.CdCallback` | TGE/sbios/ncmd.c:128-135 | the callback of a video read and of a stop is the model's callback step |
| `CdvdDriver.Driver.GetTocStage2` | TGE/sbios/ncmd.c:285-310 | the length clipped by the kind of disc and the bytes copied are the model's callback step |
| `McCard.GuardIsTheTransaction` | TGE/sbios/mc.c:398-447 | over every run at most one request is in flight, initialisations included, and `lastCmd` is nonzero exactly while it is a command, being then that command's code |
| `McCard.EveryCallOwnReply` | TGE/sbios/mc.c:157-322 | over every run each end call, of a command or an initialisation, reports the outcome of its own request and its own reply |
| `McCard.InitialisedByReply` | TGE/sbios/mc.c:261-322 | over every run the counter says exactly which initialisation replies have come, and no init callback finds the library initialised by another |
| `McCard.ServesIffNoSendFailed` | TGE/sbios/sifrpc.c:200-238 | over every run a later request can still be sent exactly when no send has failed so far |
| `McCard.OneFailedSend` | TGE/sbios/sifrpc.c:130-156 | one bind whose packet cannot be sent ends the service |
| `McCard.StuckRun` | TGE/sbios/sifrpc.c:340-375 | the client is in use with no reply to come exactly when it was so before the run or a send failed in it |
| `McCard.StepKeeps` | TGE/sbios/mc.c:261-322 | every step keeps the guard, the command buffers, the reply areas, the counter and the finished calls in agreement |
| `McCard.EveryCallEndsOnce` | TGE/sbios/mc.c:157-322 | over every run each accepted call is in flight or ended, exactly once, also through the early returns of the init callback |
| `McCard.ZeroMeansAccepted` | TGE/sbios/mc.c:330-383 | a call returns 0 exactly when it was accepted; a refused command has released the guard, and no reachable initialisation returns 0 without sending |
| `McCard.CommandAcceptedIff` | TGE/sbios/mc.c:459-491 | a command is sent exactly when the library is initialised, no command is in flight and the RPC layer takes it; a refused one returns -1 before initialisation and -2 after, and changes neither guard nor what is in flight |
| `McCard.InitAcceptedIff` | TGE/sbios/mc.c:330-383 | an initialisation is sent exactly when the module is known, the library not initialised and the RPC layer takes it: a bind at counter 0, the init call at counter 1 |
| `McCard.VersionDecides` | TGE/sbios/mc.c:1205-1221 | the first module seen decides the type, the new one from version 0x200 on |
| `McCard.InfoFields` | TGE/sbios/mc.c:172-206 | which word of the reply get-info writes through which address |
| `McCard.OutcomeFields` | TGE/sbios/mc.c:261-322 | the results -1, 0, 1, -120, -121 and the reply's own, each with its condition on the reply |
| `McCardDriver.Driver.Send` | TGE/sbios/sifrpc.c:180-238 | taking a packet, then the client, then sending is the model's step on the client |
| `McCardDriver.Driver.McInit` | TGE/sbios/mc.c:1201-1226 | return value and whole new state are those of the model's init step |
| `McCardDriver.Driver.Command` | TGE/sbios/mc.c:459-491 | return value and whole new state are those of the model's command step |
| `McCardDriver.Driver.McCallback` | TGE/sbios/mc.c:157-166 | the callback of most commands is the model's callback step |
| `McCardDriver.Driver.McGetInfoApdx` | TGE/sbios/mc.c:172-206 | writing through each address that is not NULL is the model's callback step |
| `McCardDriver.Driver.McReadFixAlign` | TGE/sbios/mc.c:211-242 | a finished read hands on the area its data is copied from, and is the model's callback step |
| `McCardDriver.Driver.InitCompleted` | TGE/sbios/mc.c:261-322 | the init callback, with its fall-through and early returns, is the model's callback step |
| `IopHeap.OneRequestOwnsThePacket` | TGE/sbios/iopheap.c:52-161 | over every run the mutex is held exactly while one request is in flight, no unlock finds it free, the shared packet is that request's command or reply, and each accepted call ends once with its own reply |
| `IopHeap.BoundByServer` | TGE/sbios/iopheap.c:52-66 | over every run the heap is bound exactly when some initialisation has been answered with a server |
| `IopHeap.ZeroMeansAccepted` | TGE/sbios/iopheap.c:110-161 | a call returns 0 exactly when accepted; otherwise the mutex is as it was |
| `IopHeap.AcceptedIff` | TGE/sbios/iopheap.c:67-161 | a call is sent exactly when the mutex is free, the send accepted and the heap bound, or not yet bound for an initialisation; with the codes of the refusals |
| `IopHeap.EveryCallServed` | TGE/sbios/iopheap.c:67-161 | from every reachable state some run has any given allocation or release in flight |
| `IopHeap.Driver.Call` | TGE/sbios/iopheap.c:67-161 | return value and whole new state are those of the model's call step |
| `IopHeap.Driver.Completed` | TGE/sbios/iopheap.c:52-108 | the two callbacks are the model's callback step |
| `SifRpc.ExactlyOnce` | TGE/sbios/sifrpc.c:340-398 | in a link that conserves its requests each request number below the next one is pending or ended, once in all, and no other occurs |
| `Crc32.StreamBurst` | loader/crc32check.c:69-84 | bit streams of equal length that agree outside 32 consecutive bits have equal CRCs only when they are equal |
| `Crc32.FourByteBurstDetected` | loader/crc32check.c:69-84 | inputs of equal length that differ only inside four consecutive bytes have different CRCs |
| `Crc32.TableStep` | loader/crc32check.c:78-82 | one byte through the tables is its eight bits, least significant first, through the bit-serial register |
| `Crc32.Crc.BuildRow` | loader/crc32check.c:49-65 | the inner loop fills a table row with the shifted index and the reversed byte |
| `Crc32.Crc.BuildTable` | loader/crc32check.c:44-67 | the loops fill both tables |
| `Crc32.Crc.CalcCrc` | loader/crc32check.c:69-84 | the table-driven loop computes the bit-at-a-time CRC of every byte string, building the tables when needed |
| `Crc32.FeedIsShifts` | tools/crc32gen/crc32gen.c:17-38 | feeding up to 32 bits is shifting the register with those bits added to it |
| `Crc32.FeedLinear` | tools/crc32gen/crc32gen.c:17-38 | the CRC is linear: the difference of two registers is the register of the difference |
| `Crc32.ShiftsKernel` | tools/crc32gen/crc32gen.c:28-34 | zero bits lose no difference |
| `Crc32.GeneratorIs` | tools/crc32gen/crc32gen.c:17-38 | the CRC of the one byte 0x80 is the number 0x04C11DB7, and that of no bytes or a zero byte is zero |
| `Crc32.OneBit` | tools/crc32gen/crc32gen.c:17-38 | a message with a single one bit leaves the generator shifted once for each bit after it, which by linearity decides every CRC |
| `Crc32.FeedIsLowFirst` | loader/crc32check.c:59-61 | the bits fed for a byte spell it, least significant first |
| `ElfLoad.CheckDecides` | loader/loader.c:685-837 | the check returns 0 exactly for an ELF with the right magic, a reachable entry inside the range, every segment passing and one covering the entry; it reports the highest segment end, and builds the loaded image when given a destination |
| `ElfFormat.CheckAllows` | loader/loader.c:685-837 | with no wrapping segment, the check returns 0 exactly when the magic is right, the entry is reachable and in [start, end), every loadable segment begins at start or after and ends before end with its file part inside the file and sizes up to 128 MiB, and one holds the entry |
| `ElfFormat.SegmentErrorSays` | loader/loader.c:729-803 | a segment passes exactly when it is allowed, and each error code names the first condition that fails |
| `ElfFormat.EntryErrorSays` | loader/loader.c:706-728 | the same for the entry point |
| `ElfFormat.CheckErrorSays` | loader/loader.c:685-837 | every other result: the magic number, the entry point, the first segment that fails, or no segment with the entry point, in that order |
| `ElfFormat.HighestIsAnEnd` | loader/loader.c:797-802 | the reported highest address is the largest of the segments' ends |
| `ElfFormat.HeaderReadBack` | loader/elf.h:51-61 | a program header laid out in memory is read back field by field |
| `ElfFormat.FileHeaderReadBack` | loader/elf.h:8-25 | magic, entry and number of program headers of a file header laid out in memory are read back |
| `ElfLoad.AcceptedFits` | loader/loader.c:729-831 | with no wrapping segment, accepted segments lie in [start, highest) with highest < end, their file parts lie in the file, and one covers the entry point |
| `ElfLoad.CopyWritesTheImage` | loader/loader.c:1014-1059 | copying an accepted ELF writes only [start, highest), puts at each address the byte of the last segment covering it, and leaves the file it reads from intact |
| `ElfLoad.CheckBuildsWhatCopyWrites` | loader/loader.c:813-828 | the image built by the check is, relative to start, what the copy writes, overlapping segments included |
| `ElfLoad.VerifyAfterCopy` | loader/loader.c:1129-1184 | after copying an accepted ELF with disjoint segments and filesz <= memsz, verification does not panic |
| `ElfVerify.VerifyAfterCopyIff` | loader/loader.c:1129-1184 | the same for segments of any sizes: verification after the copy panics exactly when some segment is longer in the file than in memory and the byte after its file part is not zero |
| `ElfVerify.OverlongPanics` | loader/loader.c:1169-1177 | a memory in which such a segment is loaded as it should be and does not pass |
| `ElfLoad.PassedWritesInside` | loader/loader.c:797-807 | a segment that passes the check is written inside the range exactly when its file part ends inside it |
| `ElfLoad.WrappingSegmentPasses` | loader/loader.c:797-807 | a segment that passes the check and is written above the range |
| `ElfVerify.VerifyTrust` | loader/loader.c:1124-1184 | for an accepted ELF with disjoint segments: every memory that holds the file and passes verification holds the loaded image exactly when no loadable segment has a tail of more than one byte |
| `ElfVerify.SegmentTrust` | loader/loader.c:1154-1179 | for one segment in memory: passing means its file bytes and a clear tail exactly when the tail has at most one byte |
| `ElfVerify.MissedTail` | loader/loader.c:1172-1177 | a memory that passes with a tail that is not clear |
| `ElfVerify.LongTailMissed` | loader/loader.c:1172-1177 | for any accepted ELF with a longer tail, a memory that passes and is not the image |
| `ElfLoad.CheckSections32` | loader/loader.c:685-837 | the checking loop returns the model's code and highest end, and leaves the model's memory |
| `ElfLoad.CheckOne` | loader/loader.c:729-831 | one turn of the checking loop, test by test, is the model's step |
| `ElfLoad.CopySections32` | loader/loader.c:1014-1059 | the copying loop returns the entry and leaves the loaded memory, or nothing for a file that is no ELF |
| `ElfLoad.VerifySections32` | loader/loader.c:1129-1184 | panics exactly when some segment's file bytes, or the first byte of its cleared tail, differ |
| `Elf.ImageOfList` | loader/loader.c:1043-1055 | loading segments that fit, in order, gives the image and leaves the file alone |
| `Elf.LoadUpToIsList` | loader/loader.c:1029-1057 | reading headers while copying reads the headers of the file as it was |
| `PhysMem.CopyMoves` | loader/loader.c:1050-1050 | a byte copy away from its source moves the bytes and touches nothing else |
| `PhysMem.CopySmears` | loader/loader.c:654-664 | one byte past its source a copy repeats the first byte, as a forward loop does |
| `Initrd.PlacedIffMeasured` | loader/loader.c:2389-2439 | a placed initrd starts its data on a page, above the kernel and below the loader, exactly when its size was determined, also when the available size wraps |
| `Initrd.PlacedWhen` | loader/loader.c:2389-2439 | placement succeeds exactly when the file fits between the page after the kernel and the loader |
| `Initrd.PlaceIs` | loader/loader.c:2389-2439 | where the initrd goes and which error is reported otherwise, without 32-bit arithmetic |
| `Initrd.UnmeasuredInitrdPlaced` | loader/loader.c:1286-1300 | the placement accepted for a size of -1 |
| `Initrd.KernelCopySpares` | loader/loader.c:2362-2445 | with the kernel accepted before the initrd is loaded, copying the kernel puts its image in memory and preserves the placed initrd with its header, the loader, and the ELF buffer |
| `Initrd.CheckStillHolds` | loader/loader.c:2388-2430 | loading the initrd where it was placed leaves the ELF, its headers and its acceptance as they were checked |
| `Initrd.PlaceInitrd` | loader/loader.c:2389-2459 | the steps of placement, in 32-bit arithmetic with the signed size comparison, give the model's result |
| `CallTable.ScanSound` | loader/loader.c:1912-2072 | over any straight-line code, whatever the other instructions do, each register not stale holds the real machine's value and each tracked load address is the one the processor used |
| `CallTable.StepAgrees` | loader/loader.c:1915-2053 | one instruction keeps that agreement |
| `CallTable.LuiExact` | loader/loader.c:1938-1941 | sign-extending a lui immediate before shifting makes no difference in 32 bits |
| `CallTableCode.ImmSigned` | loader/loader.c:1922-1926 | an immediate is the low half of its word as a signed number |
| `CallTableCode.DecodeEncoded` | loader/loader.c:1917-2053 | each followed instruction, built from its fields, is decoded to them |
| `CallTableCode.PairLeavesAddress` | loader/loader.c:1917-1945 | for every 32-bit address a lui and an addiu leave exactly it in the register, in the scan and in the processor, and nothing else changes |
| `CallTableCode.ScanJumps` | loader/loader.c:1994-2040 | a jr stops the scan exactly when an address is noted for its register, a jalr always, and which address results |
| `CallTableCode.ShiftDoubles` | loader/loader.c:1987-1990 | each further place of a shift doubles the word in 32 bits |
| `CallTableCode.RebaseMoves` | loader/loader.c:1910-1912 | what the image has some distance after its start is the same distance after the start of the copy |
| `CallTableCode.TableFound` | loader/loader.c:1998-2019 | whatever code comes before it, the compiled dispatch of a call within the first 128 words gives its table's place in the copy |
| `CallTable.TableIsTheLoadedAddress` | loader/loader.c:1994-2079 | when the scan stops at a jump through a register last loaded from a tracked base, the result is that load's address moved into the buffer |
| `CallTable.GetSbiosCallTable` | loader/loader.c:1887-2080 | the loop over 128 instructions returns the model's table address |
| `CallTable.Examine` | loader/loader.c:1917-2053 | one turn of the loop on the two register arrays is the model's step |
| `Config.SaveThenLoad` | loader/configuration.cpp:325-361 | saving then loading into any store restores every registered variable exactly when no video item is left last, or its default is the saved text |
| `Config.SaveThenLoadInOrder` | loader/loadermenu.cpp:851-854 | with every video item followed by a video parameter item, everything is restored, shared variables included |
| `Config.VideoModeLast` | loader/configuration.cpp:78-82 | a video mode registered after the video parameter text loses that text |
| `Config.LinePerItemIff` | loader/configuration.cpp:325-361 | the saved file holds each item on a line of its own exactly when every number's line leaves room for its newline |
| `Config.FullLineHidesNext` | loader/configuration.cpp:46-53 | a number whose line is 2047 characters long is restored and the item after it is not read |
| `Config.LoadersAgree` | loader/configuration.cpp:174-235 | on content whose lines fit the buffer the file loader and the ROM loader leave the same configuration |
| `Config.FileReadsLines` | loader/configuration.cpp:180-185 | the fgets loop amounts to applying the lines, also when a line just fills the buffer |
| `Config.RomReadsLines` | loader/configuration.cpp:218-233 | the memchr loop takes exactly the lines |
| `Config.FgetsTakesAll` | loader/configuration.cpp:180-185 | of any content, what the fgets calls take joins to it, in chunks of at most 2047 characters that end at newlines |
| `Config.RomTakesPrefixes` | loader/configuration.cpp:218-233 | of any content the ROM loader takes each line, or the first 2047 characters of it |
| `Config.ApplySaved` | loader/configuration.cpp:113-170 | applying an item's saved line restores that item and nothing else |
| `Config.ApplyNewline` | loader/configuration.cpp:121-124 | a line ending makes no difference to what a line does |
| `Config.ApplyCrLf` | loader/configuration.cpp:121-124 | nor does CRLF make a difference |
| `Config.ApplySplits` | loader/configuration.cpp:126-137 | a line is split at its first '=' and its value read into every item of that name |
| `Config.ApplyIgnores` | loader/configuration.cpp:126-130 | a line without '=' changes nothing |
| `Config.Truncate` | loader/configuration.cpp:98-101 | a text is kept if it fits its buffer, and else is its longest prefix that does |
| `Config.AtoiIntText` | loader/configuration.cpp:51-58 | atoi inverts %d |
| `Config.AtoiReads` | loader/configuration.cpp:55-59 | atoi skips white space, takes a sign and reads up to the first character that is no digit |
| `Config.Configuration.ApplyConfigLine` | loader/configuration.cpp:113-170 | stripping, splitting and the item loop leave the model's store |
| `Config.Configuration.ReadData` | loader/configuration.cpp:55-101 | reading a value into an item, with a video mode's side effect, leaves the model's store |
| `Config.Configuration.LoadConfiguration` | loader/configuration.cpp:174-191 | the fgets loop applies the file's lines |
| `Config.Configuration.LoadConfigurationFromRom` | loader/configuration.cpp:204-235 | the memchr loop applies the ROM file's lines |
| `Config.Configuration.WriteData` | loader/configuration.cpp:46-97 | one item's line as fwrite or fprintf leaves it in the file |
| `Config.Configuration.SaveConfiguration` | loader/configuration.cpp:325-361 | one line per item, in registration order |
| `BootLog.LogIsLines` | loader/bootlog.c:79-108 | after any sequence of appends the log is the concatenated text without CRs, split at newlines, empty pieces dropped, each cut to 127 characters; so how the text was split across calls does not matter |
| `BootLog.FeedIsSplit` | loader/bootlog.c:87-102 | the character-at-a-time log of a text is its split lines, and whether the last can still grow |
| `BootLog.PiecesJoin` | loader/bootlog.c:87-102 | the pieces hold no newline, and joined by newlines they are the text |
| `BootLog.CrDropped` | loader/bootlog.c:93-96 | a CR leaves no trace and everything else stays |
| `BootLog.Cut` | loader/bootlog.c:61-77 | a line keeps its first 127 characters |
| `BootLog.Ring.StartLine` | loader/bootlog.c:46-59 | a new empty line, the oldest dropped when sixteen are held |
| `BootLog.Ring.AppendChar` | loader/bootlog.c:61-77 | extends the newest line, or drops the character at 127 |
| `BootLog.Ring.Append` | loader/bootlog.c:79-108 | the ring takes in the characters of the C string one by one, and keeps holding the lines of everything appended |
| `BootLog.Ring.Line` | loader/bootlog.c:125-131 | line i of the last sixteen, oldest first, or nothing past the end |
| `BootLog.Ring.Count` | loader/bootlog.c:120-123 | the number of lines held |
| `BootPanel.FitIsGreedy` | loader/graphic.cpp:1002-1038 | a segment is not empty, fits unless it is a single character, and is as long as fits unless cut at the last space |
| `BootPanel.FitBreaksAtSpace` | loader/graphic.cpp:1002-1038 | a line that fits is one segment; one that does not is broken just after the last space that fits, or where it stops fitting if there is none |
| `BootPanel.SegmentsPartition` | loader/graphic.cpp:1041-1050 | the segments of a line join to the line and each is not empty and fits unless it is a single character |
| `BootPanel.BootlogFit` | loader/graphic.cpp:1002-1038 | the loop computes the segment length |
| `BootPanel.BootlogRows` | loader/graphic.cpp:1041-1050 | the number of segments, and one for an empty line |
| `BootPanel.PaintBootLog` | loader/graphic.cpp:1052-1112 | after any appends the panel draws exactly the newest sixteen wrapped rows of the newest sixteen lines of the appended text, whole, in order and at consecutive heights |
| `BootPanel.PaintLines` | loader/graphic.cpp:1066-1112 | the same for any lines that are not empty and at most 127 characters long |
| `ErrorQueue.FirstInFirstOut` | loader/graphic.cpp:1613-1633 | over any run the accepted messages are those taken followed by those waiting, in order, at most ten |
| `ErrorQueue.NothingLost` | loader/graphic.cpp:1613-1633 | a run that offers a text only while fewer than ten wait loses none of them |
| `ErrorQueue.TakesEmpty` | loader/graphic.cpp:1623-1629 | taking as often as texts wait takes them all, in order |
| `ErrorQueue.Clip` | loader/graphic.cpp:1642-1643 | a text of up to 127 characters is kept, a longer one cut to 127 |
| `ErrorQueue.Queue.SetErrorMessage` | loader/graphic.cpp:1613-1621 | one put in the run of the plain queue: appended, or dropped when ten wait |
| `ErrorQueue.Queue.GoToNextErrorMessage` | loader/graphic.cpp:1623-1629 | one take in that run: the oldest waiting text, if any, is removed |
| `ErrorQueue.Queue.GetErrorMessage` | loader/graphic.cpp:1631-1633 | the oldest waiting text, if any, which is the one accepted next after those taken |
| `ErrorQueue.Queue.ErrorPrintf` | loader/graphic.cpp:1635-1679 | one put of the clipped text, without changing any waiting text; -1 when ten wait |
| `Semaphores.LivePlusFree` | kernel/thread.c:128-143 | live plus free is always 32 |
| `Semaphores.CreateIsFresh` | kernel/thread.c:29-50 | create makes an id live that was not, with the count and attributes asked for and no other change; it fails exactly for a negative count or when all 32 are live |
| `Semaphores.DeleteThenCreate` | kernel/thread.c:52-74 | deleting a live id changes no count and is undone by the next create; deleting any other id changes nothing |
| `Semaphores.SignalRaises` | kernel/thread.c:111-120 | a signal on any of the 32 ids returns 0 and raises that count by one, and that alone |
| `Semaphores.WaitTakes` | kernel/thread.c:76-89 | a wait on a positive count returns the id and lowers that count by one, and that alone; on zero it returns -2 and changes nothing |
| `Semaphores.SignalThenWait` | kernel/thread.c:76-120 | a wait after a signal succeeds and undoes it |
| `Semaphores.CountIsBalance` | kernel/thread.c:76-120 | over any run a count is its last creation's count plus all signals on the id minus successful waits since, and never negative |
| `Semaphores.Kernel.InitSemaphores` | kernel/thread.c:128-143 | threads all 32 slots on the list in order and leaves the counts |
| `Semaphores.Kernel.CreateSema` | kernel/thread.c:29-50 | takes the first slot off the linked list, keeping it duplicate-free and equal to the free slots |
| `Semaphores.Kernel.DeleteSema` | kernel/thread.c:52-74 | puts a live slot at the head of the list |
| `Semaphores.Kernel.WaitSema` | kernel/thread.c:76-89 | decrements a positive count, else returns -2 or -1 |
| `Semaphores.Kernel.SignalSema` | kernel/thread.c:111-120 | increments the count |
| `CommandLine.RightIffNoOverlap` | loader/loader.c:1478-1490 | the search is right on every command line exactly when the option does not overlap itself from after one of its spaces |
| `CommandLine.TrapMisses` | loader/loader.c:1483-1488 | a command line on which such an option is missed |
| `CommandLine.RightWithoutSpaces` | loader/loader.c:1473-1490 | for an option without a space the search finds it exactly when it occurs at the start or after a space |
| `CommandLine.HasCommandlineOption` | loader/loader.c:1478-1490 | the strstr loop is that search |

## Left out

- Preemption inside a call: a call and a callback are each one step. `sbcall_cdvdinit` reads its counter before it takes the lock, so a callback that ran between the two would be seen as a call of the earlier stage.
- `sbcall_cdvdreset`, `cdPowerOff` and `mcChangeThreadPriority`: they bypass the locks, are synchronous, or have no end function.
- The unset result that the init callbacks would pass on with the library already initialised: the model writes 0 there, and no run reaches it.
- The byte copies that `cdAlignReadBuffer` and `mcReadFixAlign` make into the caller's buffers: the model returns the area they copy from.
- The field-by-field filling of the memory-card command buffers: a command is given the words its buffer holds when sent.
- NULL mutex pointers, cache write-back and uncached aliases.
- `Semaphores.CountIsBalance`: counts are unbounded integers, because incrementing past the largest `int` is undefined in C; negative ids, which index before the array, are not modelled.
- `Config.AtoiIntText`: atoi is modelled on numbers that fit an `int`; its result for others is undefined in C.
- `Semaphores.Kernel.SignalSema`: as for the other semaphore calls, ids are not negative; the source would index before its array.
- `Config.Configuration.WriteData`: lines of numbers longer than 2047 characters, for which fwrite would read past its buffer.
- `Cdvd.Drains`: frees the locks; that a CDVD client stays in use after a failed send is modelled for the memory card only.
- Opening, reading and writing files, and a memory-card directory for icons: content is a string.
- The 64-bit ELF path and SBIOS loading around the call-table search.
- Branches, delay slots and code outside straight lines in the call-table search: the loader does not follow them either.
- Drawing, fonts and textures: the boot log panel is its rows, with any widths and row height.
- `BootLog.Ring.Append`: the repaint it triggers is not modelled.
- `error_printf` formatting and its repaint: the text is given formatted.
- `info_prints`, `patchLibsd`, the text editor and the module tables.
