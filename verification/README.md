# FrodOS, modelled and proved in Dafny

FrodOS is a small 32-bit kernel with a physical page allocator, two-level page tables, a boot archive in ustar format,
an in-memory file table (FrodFS), a keyboard driver, a text console and a shell. This project models those parts as
imperative Dafny over the same state the C code keeps (bitmaps, tables, slots, ring, screen buffer, command buffer) and
proves them against specifications over plain values.

| file | what it holds |
|---|---|
| `Wrappers.dfy`, `Words.dfy`, `Bits.dfy`, `CStrings.dfy`, `Octal.dfy` | optional values, 32-bit words with explicit wrap-around, bits of a word, NUL-terminated text, the two octal parsers |
| `Pmm.dfy`, `AllocatorRuns.dfy` | the page bitmap of `pmm.c`, and conservation over runs |
| `Paging.dfy`, `ImageLoading.dfy` | the tables of `paging.c` and the processor's walk; boot memory set-up, `kernel_memmove`, loading of the shell |
| `Ustar.dfy`, `RamFs.dfy`, `Bootstrap.dfy` | archive format and writer, the two lookups, the import into FrodFS |
| `FrodFs.dfy`, `FrodFsRuns.dfy` | the 32-slot table, and the bounded map it stands for |
| `KeyRing.dfy`, `KeyboardDriver.dfy` | the ring at the grain of single reads and writes, the decoder and the sequential ring |
| `Console.dfy`, `ShellCommands.dfy`, `LineEditor.dfy`, `ShellAnswers.dfy` | the screen as a window onto a log, the commands, the line editor and command loop, what each typed line prints and does |
| `Keystrokes.dfy`, `Typing.dfy` | the keys of a text, and interrupts and polls in any order, from scancodes to the shell's session |

Conventions. A `char` stands for one byte, a C `char`. A `Word` is an integer below 2^32, and `Wrap` is the reduction
modulo 2^32 wherever the C arithmetic can wrap. Memory is a sequence of 2^32 bytes. A method carries the name of the C
function; where one C function holds several loops, the loops are separate methods. Classes hold the static state of
one C file; their methods are proved equal to functions on values, and the theorems are about those functions.

Where code and documentation differ, the code is followed:

* `kernel.c:20` says images over 1 MB are refused; nothing uses that constant, and no size limit is modelled.
* `kernel_main` never calls `init_paging`. The paging theorems therefore name the state after `init_paging` as a
  hypothesis, and `ImageLoading.Kernel.Boot` also proves what the launch does with paging off, as `kernel_main` leaves it.
* `ramfs.c` is compiled into no image (the object list at `FrodOS/Makefile:19-20`); its lookup is modelled as the second implementation it is.

Properties that hold only under a condition, each with the exact condition proved:

* The page loop of a memory-map entry ends only if its address does not wrap first (`MmapLoopEnds`).
* `pmm_init` does not terminate for memory sizes above 2^32 - 4096 (`InitLoopEnds`), and frees page 0 when rounding the
  kernel end up wraps (`PageZeroIsLockedUnlessRoundingWraps`).
* A reserved memory-map range is covered to its last byte only under an alignment condition (`ReservedRangeIsCovered`).
* The lookups' header check is sound only for modules that end below 2^32 - 512 (`HeaderCheckNeedsRoom`).
* `ramfs.c` returns a range outside the module exactly when the size field of the first matching header carries its
  bounds check past 2^32 into the module (`ModuleResultIsInsideExactly`); `ModuleThatEscapes` is such a module.
* `map_page` stores through the virtual addresses of its tables. With paging on, a call lands in its table entry exactly
  when the pages of the directory and of that table keep their places, both below 12 MB (`LandsExactly`); after
  `RemappedTableIsMissed`'s call every later one for the first 4 MB goes elsewhere. While the shell is loaded all calls
  land, and the kernel keeps its place exactly when it ends at or below USER_BASE (`KernelStaysExactly`). Image loading
  is proved for such kernels.
* The octal parsers differ on values that do not fit (`ParsersAgreeExactly`).
* FrodFS compares full names and stores shortened ones, so long names can repeat (`CreateKeepsNamesDistinct`,
  `LongNamesRepeat`).

## Model

| member | source | states |
|---|---|---|
| Bits.WordUpdates | FrodOS/pmm.c:9-21 | setting or clearing a bit changes that bit and no other, and the word stays a 32-bit word |
| Bits.OrJoinsBits | FrodOS/paging.c:25 | a bit of the bitwise or of two words is set iff it is set in one of them |
| Bits.FullWord | FrodOS/pmm.c:28 | the word the search skips has every bit set |
| Pmm.PageAllocator.LockPage | FrodOS/pmm.c:9-14 | the page of the address leaves the free set and nothing else changes, addresses past 128 MB included |
| Pmm.PageAllocator.UnlockPage | FrodOS/pmm.c:16-21 | the page of the address joins the free set if the bitmap manages it |
| Pmm.PageAllocator.AllocPages | FrodOS/pmm.c:24-57 | takes exactly the run at the lowest start whose pages are all free; returns 0 with the bitmap unchanged if there is none; with page 0 locked, 0 iff there is none |
| Pmm.PageAllocator.CountFree | FrodOS/pmm.c:35-45 | the inner loop counts the free pages in a row, and stops short only at a page that is not free |
| Pmm.FullWordHoldsNoStart | FrodOS/pmm.c:28 | skipping a full word skips no start of a free run |
| Pmm.FirstFitIsUnique | FrodOS/pmm.c:24-57 | the lowest fitting start is determined by the free set and the count |
| Pmm.PageAllocator.FreePages | FrodOS/pmm.c:63-68 | exactly the pages of the wrapped addresses join the free set |
| Pmm.FreedPagesOfARun | FrodOS/pmm.c:63-68 | freeing the address and count of an allocation frees that run of pages |
| Pmm.PageAllocator.Init | FrodOS/pmm.c:75-98 | after boot set-up the free set is the pages from the safe line to the end of memory, whatever the bitmap held before |
| Pmm.BootBitmapIsExact | FrodOS/pmm.c:75-98 | page p is free iff ceil(max(kernel end, 1 MB)/4096) <= p < min(ceil(memory/4096), 32768) |
| Pmm.PageZeroIsLockedUnlessRoundingWraps | FrodOS/pmm.c:88-93 | boot frees page 0 iff the kernel end is above 2^32 - 4096 and there is memory |
| Pmm.InitLoopEnds | FrodOS/pmm.c:93 | the unlock loop ends iff the memory size is at most 2^32 - 4096 |
| Pmm.PageAllocator.ParseMmap | FrodOS/pmm.c:101-118 | whenever its loops end, wrapping entry addresses included, the walk locks what the fold over the entries it visits locks |
| Pmm.PageAllocator.ParseWrittenMap | FrodOS/pmm.c:101-118 | on a map of six-word entries as written (size, base, length and type at their places) exactly the pages from the base's page on that the lengths of its reserved entries take up are locked |
| Pmm.WrittenMapEntries | FrodOS/pmm.c:105-117 | the walk over a written map meets exactly its entries, with their own bases and lengths |
| Pmm.MmapLoopEnds | FrodOS/pmm.c:111-113 | the page loop of a reserved entry ends iff the end of its last page does not wrap |
| Pmm.FittingStepsEnd | FrodOS/pmm.c:105-117 | the walk ends, within a quarter as many entries as bytes, if its page loops do and no step from entry to entry wraps |
| Pmm.MmapPassIsExact | FrodOS/pmm.c:105-117 | a page is free afterwards iff it was free and lies in no reserved entry's pages |
| Pmm.MmapPassIgnoresOrder | FrodOS/pmm.c:105-117 | the order of the entries does not matter |
| Pmm.ReservedRangeIsCovered | FrodOS/pmm.c:107-113 | every touched page of a reserved range is locked iff base mod 4096 + (length - 1) mod 4096 < 4096 |
| AllocatorRuns.StepConserves | FrodOS/pmm.c:24-68 | each allocation or legal free keeps free pages and live blocks a partition of the boot set |
| AllocatorRuns.RunConserves | FrodOS/pmm.c:24-68 | so does every run |
| AllocatorRuns.NoRunTouchesReservedPages | FrodOS/pmm.c:24-118 | over every run after boot: live blocks are disjoint, hold no page below the reserved line, no page 0 and no page of a reserved entry |
| AllocatorRuns.ReleaseUndoesAlloc | FrodOS/pmm.c:24-68 | freeing what was just allocated restores the free set |
| AllocatorRuns.Execute | FrodOS/pmm.c:24-68 | the bitmap code driven through any legal run holds the free set of the abstract heap |
| Paging.FlagsOfEntry | FrodOS/paging.c:24-25 | the low 12 bits of an entry are those of the flags; flags below 4096 leave the frame alone, higher ones are or-ed into it |
| Paging.Mmu.MapPage | FrodOS/paging.c:11-26 | through the virtual addresses of directory and tables: says whether there is no table, the store faults, or which physical address it hits, and changes exactly the entry there, if any |
| Paging.LandedStoreMaps | FrodOS/paging.c:11-26 | a store that lands changes exactly the entry of its page |
| Paging.LandsExactly | FrodOS/paging.c:23-25 | after any calls, a further one lands iff the pages of the directory and, below 12 MB, of its table keep their places; in any case the store goes where the address map puts the entry's address |
| Paging.RemappedTableIsMissed | FrodOS/paging.c:23-25 | with tables at 0x101000, mapping that page to 0x500000 sends every later store for the first 4 MB to 0x500000 on |
| Paging.Mmu.MapEach | FrodOS/paging.c:11-26 | the code driven through any calls of which each lands after those before it leaves the tables of those calls |
| Paging.Mmu.SparingCallsReach | FrodOS/paging.c:11-26 | calls that leave the pages of directory and tables in place are such calls |
| Paging.Mmu.InitPaging | FrodOS/paging.c:28-51 | leaves the identity tables, whatever directory and tables held before |
| Paging.WalkReadsLowEntry | FrodOS/paging.c:11-26 | the processor's two-level walk ends at the entry of the page's number, and faults from 12 MB on |
| Paging.EntriesFollowLastCall | FrodOS/paging.c:11-51 | every low entry is that of the last call made for its page, or the identity entry |
| Paging.TablesRefineAddressMap | FrodOS/paging.c:11-51 | after init_paging and any calls, translation is undefined from 12 MB on; below, it follows the last call for the page, and is the identity without one |
| Paging.UnmovedExactly | FrodOS/paging.c:24-25 | after any calls a range stands for itself, writable, iff it lies below 12 MB and the last call for each of its pages, if any, put it there |
| Paging.UserAccessExactly | FrodOS/paging.c:11-51 | a page is open to user mode iff its last call set both PRESENT and USER |
| ImageLoading.KernelMemmove | FrodOS/kernel.c:119-126 | through any translation without aliasing, the destination ends with the source bytes as they were, overlap included, and no other byte changes |
| ImageLoading.MapWindow | FrodOS/kernel.c:383-395 | takes the n lowest free pages in order and maps them at USER_BASE; fails iff fewer than n pages are free; everything below the window, page tables included, stays mapped where it is |
| ImageLoading.LowMemoryStays | FrodOS/kernel.c:383-395 | whatever frames the window has so far, every address below USER_BASE translates to itself |
| ImageLoading.KernelStaysExactly | FrodOS/kernel.c:383-395 | the whole kernel stays mapped where it is iff it ends at or below USER_BASE |
| ImageLoading.TakenCount | FrodOS/kernel.c:387-391 | frames taken plus pages left are the pages that were free |
| ImageLoading.WindowTranslation | FrodOS/kernel.c:383-395 | after the map loop the window's pages are the frames, open to user mode, and the rest below 12 MB is the identity |
| ImageLoading.PagedCopyIsSeparate | FrodOS/kernel.c:398 | no two addresses of image and window share a physical byte |
| ImageLoading.PagedCopyDoesNotFault | FrodOS/kernel.c:398 | every address of image and window is mapped and writable during the copy |
| ImageLoading.WindowHoldsImage | FrodOS/kernel.c:398 | after the copy user mode reads the image byte by byte from USER_BASE, and only the frames changed |
| ImageLoading.LookupThroughTables | FrodOS/kernel.c:374 | under the tables of init_paging a lookup of the archive gives the same result, if the result, or for a failing search the archive, is below 12 MB |
| ImageLoading.Kernel.LoadImage | FrodOS/kernel.c:380-398 | map loop and copy together, with paging on and with paging off; no byte of the kernel, nor with paging of the archive, changes |
| ImageLoading.Kernel.LaunchUserland | FrodOS/kernel.c:372-398 | lookup, map loop and copy: panics exactly when the image is missing or pages run out; otherwise n distinct, previously free frames and the image in place, with kernel and page tables unharmed |
| ImageLoading.Kernel.InitMemory | FrodOS/kernel.c:348-370 | the free pages after boot are those past kernel, archive and first megabyte, inside the memory announced in kilobytes, and not reserved by the memory map |
| ImageLoading.FreePagesAfterBoot | FrodOS/kernel.c:348-369 | page p is free after boot iff it is past kernel, archive and first megabyte, below the announced kilobytes (modulo 2^22; 8 MB without any) and 128 MB, and in no reserved region of the written map |
| ImageLoading.FreePageCountAfterBoot | FrodOS/kernel.c:348-360 | how many pages those are, without a memory map |
| ImageLoading.Kernel.Boot | FrodOS/kernel.c:348-398 | from memory set-up to the loaded shell, with init_paging called or not: it launches iff the image exists and its pages are at most the free pages after boot (without a map, a number given by kilobytes, kernel and archive end), and then the image is in place |
| ImageLoading.Kernel.BootWrittenArchive | FrodOS/kernel.c:348-398 | on a written archive: no image iff no file is named shell.bin; launched iff the first one's pages are free; then user mode reads its data at USER_BASE, and with paging off memory holds it there |
| RamFs.WalkReadsBelow | FrodOS/kernel.c:136-159 | a lookup depends on no byte from its result on, nor from the end of the module on |
| CStrings.StrCmp | FrodOS/frodfs.c:5-8 | zero iff the two NUL-terminated texts are equal |
| CStrings.StrNCmp | FrodOS/shell.c:67-71 | zero iff the first n characters of the two texts, or the shorter whole texts, are equal |
| Octal.KernelOctalToInt | FrodOS/kernel.c:108-116 | returns the value of the field's octal digits modulo 2^32 |
| Octal.GuardedOctalToInt | FrodOS/ramfs.c:20-44 | returns the value if it is below 2^32 and 0 otherwise |
| Octal.ValueIsPositional | FrodOS/kernel.c:108-116 | that value is the base-8 number of the digits before the first NUL or space, other characters ignored |
| Octal.ParsersInvertSizeField | FrodOS/kernel.c:32 | both parsers read back every 32-bit size from eleven printed digits |
| Octal.ParsersAgreeExactly | FrodOS/ramfs.c:37-39 | the parsers agree on a field iff its value is below 2^32 or a multiple of 2^32 |
| Ustar.StrCmpAt | FrodOS/kernel.c:103-106 | zero iff the string in memory is the given text |
| Ustar.StrNCmpAt | FrodOS/ramfs.c:7-17 | zero iff the first n characters agree, NUL included |
| Ustar.HeaderReadsBack | FrodOS/kernel.c:27-45 | a reader finds name, size (bytes 124 to 135) and type (byte 156) where the writer put them, and takes the entry for a regular file iff its type is '0' or NUL |
| RamFs.KernelRamFs.Read | FrodOS/kernel.c:130-161 | terminates and returns what the walk over the headers finds for the name without its "./" |
| RamFs.KernelResultIsInside | FrodOS/kernel.c:136-159 | for arbitrary module bytes, a result is the data of a matching header and lies inside the module, even when the octal size wraps |
| RamFs.HeaderCheckNeedsRoom | FrodOS/kernel.c:137 | the loop condition means a whole header in the module iff the module ends below 2^32 - 512 |
| RamFs.ArchiveRoundTrip | FrodOS/kernel.c:130-161 | reading a written archive of entries of any type returns the bytes and size of the first regular file that matches after "./" is dropped, and nothing iff there is none |
| RamFs.SameName | FrodOS/kernel.c:133-147 | two names match iff they are equal or one is "./" and the other |
| RamFs.ModuleRamFs.Init | FrodOS/ramfs.c:46-54 | keeps a nonempty module range and clears any other |
| RamFs.ModuleRamFs.Read | FrodOS/ramfs.c:56-104 | terminates and returns what this second walk finds, its wrapping sums included |
| RamFs.ModuleReadsFirstMatching | FrodOS/ramfs.c:64-101 | a result is the data of the first matching header that the walk visits, and there is none if the wrapped end of that data fails the check |
| RamFs.ModuleResultIsInsideExactly | FrodOS/ramfs.c:80-82 | a result leaves the module iff, for the first matching header h that the walk visits, h + 512 + size lies between 2^32 and 2^32 + the module's end |
| RamFs.WrappingSizeEscapes | FrodOS/ramfs.c:80-82 | in every such module with tame headers before h, ramfs.c returns the range and kernel.c finds nothing |
| RamFs.ModuleThatEscapes | FrodOS/ramfs.c:80-82 | a module from 0x300000 to 0x310000 whose lookup of "a" returns 0xFFF00000 bytes |
| RamFs.WalksAgree | FrodOS/ramfs.c:64-101 | on every module without "./" names, unterminated names or wrapping sizes, cut short or not, the two lookups return the same pointer and size |
| RamFs.BothLookupsReadTheArchive | FrodOS/ramfs.c:56-104 | so they do on every written archive without "./" names |
| Bootstrap.ImportArchive | FrodOS/kernel.c:430-478 | the loop ends with the first 32 distinct stems, each with its last fitting data |
| Bootstrap.ImportWrittenArchive | FrodOS/kernel.c:430-478 | on a written archive the table, by the files' paths and data alone: each file other than shell.bin with data asks for the name its base is cut to; the first 32 names asked for are there, in that order, each with the last data of at most 4096 bytes, or empty |
| Bootstrap.BootTableIs | FrodOS/kernel.c:430-478 | so for any list of entries |
| Bootstrap.ImportOfFile | FrodOS/kernel.c:443-468 | what one entry, given by directory, base name and data, does to the table: nothing for shell.bin, a nameless or empty file; else its stem is created or rewritten |
| Bootstrap.MakefileImage | FrodOS/kernel.c:453 | shell.bin and matrix.fxe leave exactly the file "matrix" |
| Bootstrap.CutShortEntry | FrodOS/kernel.c:455 | an entry that runs past the module's end is not imported, nor is anything after it |
| Bootstrap.ImportFile | FrodOS/kernel.c:443-473 | one entry creates and writes its stem unless it is shell.bin, nameless, empty or cut short |
| Bootstrap.ImportIsFold | FrodOS/kernel.c:453-468 | for every list of entries, create-then-write per entry gives the first 32 distinct nonempty stems in order, each with the data of its last entry of at most 4096 bytes, or empty |
| Bootstrap.DistinctStemsAreDistinct | FrodOS/kernel.c:457-467 | those stems are nonempty, at most 31 characters, pairwise different, and none is missing |
| Bootstrap.WrittenArchiveEntries | FrodOS/kernel.c:430-478 | on a written archive the loop meets exactly the files written |
| Bootstrap.FindBasename | FrodOS/kernel.c:443-450 | finds the part after the last '/' |
| Bootstrap.CutStem | FrodOS/kernel.c:458-464 | cuts at the first '.' or at 31 characters |
| FrodFs.FileTable.Init | FrodOS/frodfs.c:18-24 | empties the table |
| FrodFs.FileTable.Create | FrodOS/frodfs.c:26-46 | result code and new table of a create; used slots stay a prefix |
| FrodFs.FileTable.Write | FrodOS/frodfs.c:48-62 | result code and new table of a write, error cases included |
| FrodFs.FileTable.Read | FrodOS/frodfs.c:64-78 | fills the buffer with the first min(size, max) bytes and leaves the rest, or fails and changes nothing |
| FrodFs.FileTable.List | FrodOS/frodfs.c:81-103 | writes the listing and a NUL inside max_bytes and nothing after it |
| FrodFs.StrNCpy | FrodOS/frodfs.c:10-16 | copies at most n - 1 characters of the text, terminates it and leaves the bytes after the NUL alone |
| FrodFsRuns.StepRefinesMap | FrodOS/frodfs.c:26-62 | one create or write on a well-formed table is one step of a bounded map, result code included |
| FrodFsRuns.RunRefinesMap | FrodOS/frodfs.c:26-62 | over every run with created names of at most 31 characters the table is a map of at most 32 distinct names to at most 4096 bytes, and every result code is the map's |
| FrodFsRuns.LastSuccessfulWriteWins | FrodOS/frodfs.c:48-62 | after any run a name holds what its last successful write gave it |
| FrodFsRuns.ReadGivesLastWrite | FrodOS/frodfs.c:48-78 | a read gives the first min(size, max) bytes of the last successful write to that name |
| FrodFsRuns.ReadIsDecidedByMap | FrodOS/frodfs.c:64-78 | a read succeeds iff the map has the name, and otherwise returns -2 and changes nothing |
| FrodFsRuns.CreateKeepsNamesDistinct | FrodOS/frodfs.c:26-44 | a successful create keeps stored names distinct iff the shortened name is not stored yet |
| FrodFsRuns.LongNamesRepeat | FrodOS/frodfs.c:26-44 | creating any name of 32 or more characters twice stores the same name twice |
| FrodFsRuns.ListingIsLongestFittingPrefix | FrodOS/frodfs.c:87-100 | the listing is the newline-terminated names of the longest slot-order prefix that passes the fit test |
| FrodFsRuns.ListingParsesBack | FrodOS/frodfs.c:81-103 | with 1026 bytes the listing splits back into all names in creation order |
| KeyRing.EveryScheduleKeepsInv | FrodOS/keyboard.c:47-60 | the invariant of ring, program counters and history holds in every interleaving of single reads and writes |
| KeyRing.DeliveredIsPrefixOfAccepted | FrodOS/keyboard.c:47-60 | delivered keys are a prefix of accepted keys, at most 255 are pending, and the nonzero results are the delivered keys |
| KeyRing.NoUndeliveredKeyIsOverwritten | FrodOS/keyboard.c:57 | a store never hits the slot of an undelivered key |
| KeyRing.DropsExactlyWhenFull | FrodOS/keyboard.c:55-56 | a key is dropped iff 255 keys are pending when key_tail is read |
| KeyRing.AcceptedArePushedUnlessFull | FrodOS/keyboard.c:54-60 | in every interleaving the accepted keys, and the one on its way in, are the pushed keys in order without exactly those that met 255 pending ones |
| KeyRing.ZeroMeansEmpty | FrodOS/keyboard.c:48-51 | a read returns zero iff nothing was pending when it read key_head; otherwise it returns the oldest key |
| KeyRing.PushAlone | FrodOS/keyboard.c:54-60 | uninterrupted, push_key appends its key or leaves the ring as it was |
| KeyRing.GetAlone | FrodOS/keyboard.c:47-52 | uninterrupted, keyboard_get_char removes and returns the oldest key or reports empty |
| KeyboardDriver.RingHoldsPendingKeys | FrodOS/keyboard.c:31-60 | in every reachable state of the interleaved ring the slots from tail to head are the accepted keys not yet delivered |
| KeyboardDriver.Keyboard.GetChar | FrodOS/keyboard.c:47-52 | removes the oldest key of the queue, or returns 0 on an empty one |
| KeyboardDriver.Keyboard.PushKey | FrodOS/keyboard.c:54-60 | appends the key unless 255 are queued |
| KeyboardDriver.Keyboard.Handle | FrodOS/keyboard.c:63-83 | one scancode is one decoder step and offers its key to the queue |
| KeyboardDriver.Keyboard.HandleAll | FrodOS/keyboard.c:63-83 | a whole stream without reads leaves the first 255 offered keys queued |
| KeyboardDriver.DecoderFollowsStream | FrodOS/keyboard.c:66-74 | for every stream, caps is the parity of unprefixed caps presses, and shift is whether the last unprefixed shift event was a press |
| KeyboardDriver.PrefixedByteIsIgnored | FrodOS/keyboard.c:66-67 | a prefix, or the byte after one, changes neither shift nor caps and offers nothing |
| KeyboardDriver.TablesPair | FrodOS/keyboard.c:17-29 | each key is a letter in both tables, lower in one and its upper case in the other, or in neither |
| KeyboardDriver.OfferedLetterCase | FrodOS/keyboard.c:76-82 | an offered letter is upper case iff shift and caps, as read off the stream, differ |
| Keystrokes.KeysGive | FrodOS/keyboard.c:17-29 | the tables hold the characters of the keyboard: for each character, at the make code of its key |
| Keystrokes.StrokesGiveText | FrodOS/keyboard.c:63-83 | typing any text of those characters, with either shift key and caps lock on or off, offers exactly that text |
| Keystrokes.CapsStroke | FrodOS/keyboard.c:73-74 | a press of caps lock turns it over and offers nothing |
| Keystrokes.ExtendedKeyGivesNothing | FrodOS/keyboard.c:66-67 | an E0 and the byte after it leave everything as it was |
| Console.Screen.PutChar | FrodOS/video.c:35-53 | on any screen, cleared before or not, writes inside the buffer only, and keeps the screen the window of the log |
| Console.Screen.Scroll | FrodOS/video.c:23-32 | moves the window of the log down by one row: rows move up and the last is blank |
| Console.Screen.KPrint | FrodOS/video.c:56-60 | prints the text up to its NUL into the log; after plain text the cells in front of the cursor are its characters in the colour, as far as they fit |
| Console.Screen.constructor | FrodOS/video.c:5-7 | before anything is printed, whatever the text memory holds is a window too |
| Console.Screen.KClear | FrodOS/video.c:63-69 | starts a blank log, whatever the screen showed: every cell a space in the colour and the cursor at the first |
| Console.PrintKeepsValid | FrodOS/video.c:35-60 | whatever is printed, the base is a multiple of 80, the cursor is within 0..2000 and every cell from it on is a space |
| Console.ScrolledRowsAreFrozen | FrodOS/video.c:23-60 | the window only moves on, and rows above it never change again |
| Console.PrintPlainText | FrodOS/video.c:49-60 | plain text of any length lands in the log character by character, in the colour, however often the screen scrolls |
| Console.PutNewline | FrodOS/video.c:40-42 | a newline goes to the start of the next row and prints nothing |
| Console.PutBackspace | FrodOS/video.c:43-48 | a backspace takes back and blanks the last position of the window, and does nothing at its first cell |
| Console.RubOutIsBackspace | FrodOS/shell.c:223-227 | printing "\b \b" is printing "\b", at a wrapped or scrolled line start too |
| ShellCommands.TouchWriteCat | FrodOS/shell.c:116-171 | touch, write, cat of a simple name and text print the text and a newline, and change no other file |
| ShellCommands.LsShowsEveryName | FrodOS/shell.c:105-111 | ls lists every file in creation order |
| ShellAnswers.HelpIsAnswered | FrodOS/shell.c:88-97 | "help" prints the menu |
| ShellAnswers.ClearIsAnswered | FrodOS/shell.c:98-100 | "clear" leaves a blank screen with a new prompt |
| ShellAnswers.BeepIsAnswered | FrodOS/shell.c:101-104 | "beep" prints its line |
| ShellAnswers.LsIsAnswered | FrodOS/shell.c:105-115 | "ls" prints every name and a newline in slot order, or says that there is none |
| ShellAnswers.TouchIsAnswered | FrodOS/shell.c:116-129 | touch: already exists, created, or no room, by the names in the table and its 32 slots |
| ShellAnswers.WriteIsAnswered | FrodOS/shell.c:130-151 | write: the first file of the name gets the text, or the error without one |
| ShellAnswers.CatIsAnswered | FrodOS/shell.c:152-171 | cat: the first 4095 bytes and a newline, or the error |
| ShellAnswers.OtherIsAnswered | FrodOS/shell.c:172-191 | any other line runs the program of that name, or says that it is unknown or no program |
| ShellAnswers.WriteUsageIsAnswered | FrodOS/shell.c:148-150 | write without a text prints its usage |
| ShellAnswers.FirstPromptShowsBanner | FrodOS/shell.c:199-203 | the first prompt stands below the banner on a cleared screen |
| ShellAnswers.CarriageReturnEnters | FrodOS/shell.c:213 | a carriage return enters the line as a newline does |
| LineEditor.Shell.RunCommand | FrodOS/shell.c:77-191 | runs the command of the buffer's text, cutting the buffer in place |
| LineEditor.Shell.CutArguments | FrodOS/shell.c:131-140 | splits write's arguments into file name and text in place |
| LineEditor.Shell.HandleKey | FrodOS/shell.c:205-234 | one key is one step of the session: buffer, screen and files together |
| LineEditor.Shell.Loop | FrodOS/shell.c:205-234 | any stream of keys is the fold of those steps |
| LineEditor.Shell.Start | FrodOS/shell.c:195-203 | from any screen, the session begins at the prompt below the banner |
| LineEditor.Shell.StartAndLoop | FrodOS/shell.c:195-234 | main on any stream of keys, from any screen: the session is the fold of the keys from the first prompt, and the screen is the window of its log with blanks from the cursor on |
| LineEditor.EchoAgreesWithBuffer | FrodOS/shell.c:223-233 | from any prompt, for every stream of editing keys: the buffer is the fold of the keys and the cells before the cursor show exactly its characters in the colour, wraps and scrolls included |
| LineEditor.Shell.EchoIsOnScreen | FrodOS/shell.c:223-233 | then the cells of the screen just before the cursor are the characters in the command buffer |
| LineEditor.EverySessionKeepsScreen | FrodOS/shell.c:195-234 | over every run, commands included, the screen stays such a window with blanks ahead |
| LineEditor.EchoAgreesInEveryRun | FrodOS/shell.c:195-234 | so echo and buffer agree at every prompt of every run from such a screen |
| LineEditor.EchoAgreesFromFirstPrompt | FrodOS/shell.c:195-234 | in particular over every run from the first prompt below the banner, whatever files there are |
| LineEditor.TypedRoundTrip | FrodOS/shell.c:77-234 | the three commands typed as keys leave the file with the text, print it, and return to an empty prompt |
| Typing.OfferedOne | FrodOS/keyboard.c:63-83 | one interrupt keeps delivered and queued keys an in-order part of the offered ones, and all of them until a key meets a full ring |
| Typing.Run | FrodOS/shell.c:205-234 | however interrupts and polls interleave, the session is that of the delivered keys, which are keys the decoder offered, in order; with the queue they are all of them unless more than 255 were offered |
| Typing.StrokesArriveInOrder | FrodOS/keyboard.c:47-83 | the strokes of at most 255 characters, polled in any order: the text is delivered or still queued, in order |
| Typing.TypeText | FrodOS/shell.c:205-234 | a text of any length typed key by key while the shell reads gives the session of that text |
| Typing.TypeFile | FrodOS/shell.c:77-234 | the keys of touch, write and cat leave the file with the text and an empty prompt |

## Left out

- Paging.Mmu.MapPage: a directory whose own page was moved, and a store that hits the directory, because its entries would then come from other memory. A supervisor store is taken to respect the writable bit (CR0.WP set).
- RamFs.KernelRamFs.Read: modules that end at or above 2^32 - 512, because the header check itself then wraps (`HeaderCheckNeedsRoom`).
- RamFs.ModuleRamFs.Read: the same bound on the module's end.
- Pmm.PageAllocator.Init: memory sizes for which the loop does not end (`InitLoopEnds`).
- Pmm.PageAllocator.ParseMmap: memory maps on which its loops do not end.
- Bootstrap.ImportArchive: archives in which a name fills its field without a NUL or a header address wraps; the loop does not check for either. The progress lines it prints are not modelled.
- LineEditor.Shell.RunCommand: a program that exec accepts; mapping at and above 12 MB is refused by map_page, and the jump to user mode is a hardware effect. The beep makes no sound in the model.
- ImageLoading.Kernel.LaunchUserland: the page tables and the allocator's bitmap are kept as arrays beside physical memory, not in it. The proof that the loads change no byte below the reservation line, and that every page below USER_BASE stays where it is, shows that the copy does not reach them. The TLB, the jump to ring 3 and the messages on the way are left out.
- ImageLoading.Kernel.Boot: a kernel that ends above USER_BASE, which would be mapped away or overwritten (`KernelStaysExactly`), and a failing search with paging on in an archive that ends past 12 MB, which would fault.
- KeyboardDriver.Keyboard.Handle: the controller is a stream of bytes; the order of two volatile reads inside one comparison is fixed, which no result depends on.
- Console.Screen.PutChar: the hardware cursor; a cell is a pair of character and attribute, with the sign extension of characters above 127 into the attribute kept.
- `kset_color`: nothing calls it, so the colour is a constant of each run.
- The syscall stub and its check that user pointers lie above USER_BASE: the shell's pointers always do.
- GDT, IDT, timer, speaker, number printing, the fault handler and the SDK: encodings and hardware effects without an algorithm.
- pmm_alloc_page and pmm_free_page: the calls with count 1.
