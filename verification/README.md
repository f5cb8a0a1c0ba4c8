# lizaOS: a verified model of its memory, console, printf and ramdisk code

A Dafny model of the parts of the lizaOS kernel whose correctness spans several functions:

- **Paging over a bump allocator** (`Words`, `EarlyHeap`, `PageWalk`, `Machine`, `Boot`, `Paging`, `PagingCode`,
  `PagingSteps`, `PagingRuns`, `PagingTheorems`, `Kmain`, `Pager`). Physical memory is one array of 2^30 words, and the
  page directory, the shadow index and the page tables live in that memory. The kernel reads and writes them
  through whatever translation is active at the time: first the tables built by boot.asm, then its own. The
  hardware walk (`PageWalk.Walk`) is a separate function that follows 32-bit paging, section 4.3 of the Intel
  SDM, Volume 3A. `panic` is the outcome `Halt`.
- **The printf engine** (`Printf`, `PrintfFormat`, `PrintfFacts`, `PrintfEngine`), following the code where it departs from
  `fprintf` of ISO C11.
- **The text console** (`Console`): the scrolling cell buffer against "the last 25 lines of the text".
- **The initrd packer and the ramdisk reader** (`Initrd`, `RamdiskFacts`, `Ramdisk`).
- **Memory and string primitives** (`CString`), **bitwise operators** (`Bits`) and **division** (`Division`) that the
  rest stands on.

`dafny verify dfyconfig.toml` checks the whole project.

## How the code is read

- Words are integers below 2^32. `Add32` wraps (`Words.Add32IsModular`); `|`, `&`, `>>` are defined bit by bit in
  `Bits`, and the masks of paging.h are proved to be the arithmetic used (`Words.Masks`, `Words.OrPresentIsOr`).
- A page-aligned pointer (`pageDirectory`, `ptPhysToVirt`, CR3) is stored as its page number.
- `page_map_pte` is four read-modify-writes through the active translation, as written (`PagingCode.PteCode`).
  `Space.Protected` is the pages that `page_map` itself writes through: the directory, the shadow index, every table
  and the heap pages not handed out yet. `kmain` maps heap pages it has allocated, which are not protected.
- Where a property fails, the condition under which it holds is proved in both directions, and an instance shows the
  failure:
  - a served allocation stays in the heap if and only if nothing wrapped (`ServedInsideIffNoWrap`; `WrapIsServed`);
  - `virt_to_phys` reports the physical address if and only if the address is aligned (`ExactIffAligned`;
    `OffsetIsDropped`);
  - the frame asked for is installed if and only if `perm` brings no new frame bits (`JoinFrameExact`;
    `PermChangesFrame`);
  - `page_map` keeps the invariant `Sound` if and only if the page is not protected, or it keeps its frame and is not the
    page of the very table that is edited (`MapPageCodeSoundIff`). The last case is real: mapping the page of table 768
    to the frame it already has leaves it at frame 0, because the first of the four writes clears the frame that the
    other three go through (`OwnTableExists`, `OwnTableIsLost`). `Sound` also asks that the heap pages not handed out yet
    are mapped home, since later tables are made of them. Leaving those aside, tables and walks stay right if and only
    if the same holds for the pages in use (`MapPageCodeWorksIff`); a free page may be mapped anywhere, until a table is
    made of it: mapped to the directory's frame, it takes the directory with it (`FreePageOnDirectory`);
  - boot.asm maps the whole kernel if and only if it ends by 0xC0400000 (`BootMapsKernelIff`; `LinkerLimitIsTooWeak`
    is a layout the linker accepts);
  - `memcpy` equals `memmove` if and only if the ranges are disjoint or the destination does not start after the source
    (`ForwardIsMoveIff`; `OverlapWitness`);
  - `strcpy` writes no terminator, although string.h:15 promises a terminated copy, and copies the first byte before it
    looks for one: the destination reads as the source string if and only if that is empty or a terminator was already
    behind the copy (`CopyReadsBackIff`; `CopyKeepsTail`);
  - a signed decimal reads back if and only if it is not a negative number printed with the space flag
    (`SignedRoundTripIff`; `HiddenMinus`);
  - no digit wraps to NUL, which would end the output, if and only if the base is at most 169 (201 with capitals)
    (`NoDigitLostIff`; `LostDigit`). `printi` is static and its callers pass 10 and 16, so none of them gets there;
  - `read` stays inside the file if and only if `offset + size` does not wrap into it (`ReadCountInsideIff`;
    `WrapReadsOn`);
  - every file is found by its name if and only if the names are distinct and none is "dev" (`AllFoundIff`;
    `SecondIsHidden`).
- Conditions that C itself demands of callers are preconditions: formats that do not end inside a directive,
  arguments of the right kind, a width below 2^31, no least integer for a signed directive, names that are not empty and
  fit their field, a zero-filled heap under the inode names.

## Model

| member | source | states |
|---|---|---|
| Words.PageAlignUp | include/paging.h:10-11 | rounds up to the next page boundary, less than a page away; zero exactly in the last page of the address space |
| Words.Add32IsModular | src/mm/alloc.c:41-47 | unsigned addition is modulo 2^32 |
| Words.Masks | include/paging.h:8-9 | rounding down, the page offset and the present bit are what the masks compute bit by bit |
| Words.Or32 | src/mm/paging.c:211-217 | OR on a table entry acts on frame and flags separately and stays in 32 bits |
| EarlyHeap.Allocator.Init | src/mm/alloc.c:23-31 | a fresh valid heap, or a failed assertion when base is not below max |
| EarlyHeap.Allocator.Alloc | src/mm/alloc.c:33-53 | serves the request exactly as the 32-bit bound test says: NULL for zero, the cursor otherwise, or the right halt |
| EarlyHeap.Allocator.AllocAligned | src/mm/alloc.c:55-73 | the same from the next page boundary |
| EarlyHeap.ServeStep | src/mm/alloc.c:41-49 | a served request moves the cursor just past its block and skips less than a page, only if aligned |
| EarlyHeap.RunSafe | src/mm/alloc.c:23-73 | over every run the blocks lie in [base, max), are pairwise disjoint, aligned ones start on page boundaries, and the bytes used are the sizes plus under one page of padding per aligned block |
| EarlyHeap.ServedIffFits | src/mm/alloc.c:33-73 | a request of any size that stays within 32 bits is served if and only if it fits from the cursor, or from the next page boundary when aligned, and then right there |
| EarlyHeap.ServedNothing | src/mm/alloc.c:35-39 | a request for nothing gets NULL and leaves the heap as it was; before initialisation every request halts |
| EarlyHeap.ServedInsideIffNoWrap | src/mm/alloc.c:41 | a served request stays in the heap if and only if neither rounding nor the sum wrapped |
| EarlyHeap.WrapIsServed | src/mm/alloc.c:41-48 | a request of nearly 4 GB is served from the 1 MB heap |
| Boot.Start | src/asm/boot.asm:53-106 | leaves exactly the directory, low-memory table and kernel table of the layout, with CR3 at the directory; below 4 MB a page is mapped, onto itself, if and only if it starts below the end of the early kernel |
| Boot.MapLowMemory | src/asm/boot.asm:65-75 | the loop maps exactly the pages below the end of the early kernel onto themselves |
| Boot.MapKernel | src/asm/boot.asm:85-99 | the loop enters exactly the kernel pages, each at its index modulo 1024 |
| Boot.BootedWalk | src/asm/boot.asm:59-104 | the hardware walk of the boot tables, for every page |
| Boot.BootedByAddress | src/asm/boot.asm:59-104 | by address: the early kernel onto itself; the kernel 0xC0000000 lower, and what of it lies above 0xC0400000 a table too low; every other page unmapped |
| Boot.BootMapsKernelIff | config/linker.ld:63 | every kernel page is mapped 0xC0000000 lower if and only if the kernel ends by 0xC0400000 |
| Boot.LinkerLimitIsTooWeak | config/linker.ld:3-63 | a layout that the script arranges, within the 3 MB limit, whose page at 0xC0400000 stays unmapped |
| PageWalk.SetEntryMap | src/mm/paging.c:207-217 | writing one table entry changes the translation of exactly one page |
| PageWalk.LinkMap | src/mm/paging.c:90-108 | allocating, clearing and linking a fresh table changes no translation |
| PageWalk.LinkWellLinked | src/mm/paging.c:90-108 | after linking, directory and shadow index still describe the same, pairwise distinct tables |
| Paging.SoftWalkAgrees | src/mm/paging.c:36-71 | the software walk of virt_to_phys and the hardware walk agree on every page, before and after the switch; an unmapped page is an assertion failure |
| Paging.JoinFrameExact | src/mm/paging.c:214 | the frame asked for is installed if and only if perm has no frame bits that phys lacks |
| Paging.PermChangesFrame | src/mm/paging.c:211-214 | mapping frame 1 with perm 0x2002 installs frame 3 |
| Paging.PteWordFlags | src/mm/paging.c:208-217 | the flags of an entry are kept and joined with perm and PRESENT |
| Paging.PteWordFrame | src/mm/paging.c:208-214 | the old frame is replaced |
| Paging.MapPageMaps | src/mm/paging.c:77-119 | done in one step, page_map gives the page its frame and adds its flags, and leaves every other page as it was, also when it creates a table |
| Paging.MapPageSound | src/mm/paging.c:77-119 | done in one step, page_map keeps the invariant if and only if a protected page keeps its frame |
| PagingCode.MapPageCodeExact | src/mm/paging.c:202-218 | the four read-modify-writes are that one step, unless the page is that of the table being edited |
| PagingCode.MapPageCodeSoundIff | src/mm/paging.c:77-119 | page_map as written never faults, and keeps the invariant if and only if the page is not protected, or keeps its frame and is not the page of the table being edited |
| PagingCode.OwnTableExists | src/mm/paging.c:186-189 | in every reachable state the table of the higher half maps its own page |
| PagingCode.OwnTableIsLost | src/mm/paging.c:207-217 | mapping the page of such a table to the frame it already has leaves it at frame 0 |
| PagingCode.IdentityHarmlessIff | src/mm/paging.c:123-126 | an identity mapping keeps the invariant if and only if the page is not protected |
| PagingCode.MapPageCodeWorksIff | src/mm/paging.c:77-119 | whatever becomes of free heap pages, the tables stay linked and reachable after page_map if and only if a page in use by the pager keeps its frame and is not the page of the table being edited |
| PagingCode.WorksAgrees | src/mm/paging.c:36-71 | while they are, the software and the hardware walk agree on every page |
| PagingCode.FreePageOnDirectory | src/mm/paging.c:91-94 | with the next free page mapped to the directory's frame the walks are still right, but making a table of it clears the directory and ends in a page fault |
| PagingRuns.MapPageUntouched | src/mm/paging.c:94-114 | done in one step, page_map writes no frame outside the heap |
| PagingRuns.KernelMapIsBootMap | src/mm/paging.c:176-190 | every page of the new directory has the frame and flags it had under the boot tables |
| PagingRuns.KernelMapByAddress | src/mm/paging.c:176-190 | by address: the new directory maps the first megabyte onto itself, the kernel 0xC0000000 lower, and nothing else |
| PagingRuns.Switch | src/mm/paging.c:196-199 | once every heap page is mapped home, the new directory can take over with the invariant intact |
| PagingTheorems.StepValid | src/mm/paging.c:77-119 | one permitted operation keeps the invariant and halts only for lack of memory |
| PagingTheorems.EveryRun | src/mm/paging.c:36-119 | after every run of page_map and allocator calls the invariant holds, the two walks agree on every page, and the tables refine the page-by-page view of the calls |
| PagingTheorems.OnlyMemoryRunsOut | src/mm/paging.c:63-109 | after any run, a permitted page_map halts if and only if it needs a table and the heap is full |
| PagingTheorems.SimpleFrame | src/mm/paging.c:207-211 | the frame of a page is that of the last call that named it |
| PagingTheorems.SimpleFlags | src/mm/paging.c:207-217 | its flags are PRESENT joined with every flag it had or was ever given |
| PagingTheorems.ExactIffAligned | src/mm/paging.c:67-70 | virt_to_phys reports the physical address if and only if the address is page aligned |
| PagingTheorems.OffsetIsDropped | src/mm/paging.c:67-70 | with page 1 at frame 1, virt_to_phys(0x1001) is 0x1000 |
| Pager.Kernel.VirtToPhys | src/mm/paging.c:36-71 | computes the software walk, load by load, in both phases |
| Pager.Kernel.PageMapPte | src/mm/paging.c:202-218 | the four read-modify-writes, each through the translation of its moment, or a failed assertion |
| Pager.Kernel.ClearTable | src/mm/paging.c:94 | the clearing loop, each store through the translation of its moment, or a page fault |
| Pager.Kernel.NewTable | src/mm/paging.c:90-109 | hands out, clears and links the first free page, or halts exactly when there is none |
| Pager.Kernel.PageMap | src/mm/paging.c:77-119 | halts on unaligned arguments, without a directory, or when a table is needed and the heap is full, and never otherwise; the result is the address of the entry; the invariant holds afterwards if and only if the call was harmless, and then only the named page changed |
| Pager.Kernel.PageIdentMapRange | src/mm/paging.c:148-156 | terminates; maps onto itself exactly the pages that meet [start, end), or nothing when the end wraps to zero; halts for lack of memory exactly when fewer heap pages are free than tables are missing |
| Pager.Kernel.InitTables | src/mm/paging.c:163-170 | an empty, sound directory and shadow index in the first two free pages, or a halt exactly when two pages are missing |
| Pager.Kernel.MapFirstMegabyte | src/mm/paging.c:176-180 | exactly the first 256 pages onto themselves, using one table |
| Pager.Kernel.MapKernelImage | src/mm/paging.c:182-190 | exactly the kernel pages 0xC0000000 lower, using one table |
| Pager.Kernel.InitPaging | src/mm/paging.c:158-200 | needs exactly four free pages and takes them: directory, shadow index and two tables, with the allocator just behind; ends on the new directory, which maps the first megabyte and the kernel and nothing else, each page as under the boot tables |
| Pager.Kernel.Perform | src/kernel.c:54-61 | every client operation is a step of the run model |
| Pager.Kernel.PerformAll | src/kernel.c:50-61 | a whole run of client operations is a run of the model, stops only when the heap is full, and leaves tables on which the two walks agree and which refine the page-by-page view of the calls |
| Kmain.MapTaken | src/kernel.c:54-55 | in every state with a free page, a page taken from the heap can be mapped to any frame, without a halt |
| Kmain.GrabMappedMaps | src/kernel.c:54-55 | and that changes the translation of this page and of no other |
| Kmain.KmainRuns | src/kernel.c:54-61 | for every page-aligned module list and module, the four operations of kmain are orderly from the state init_paging leaves, none halts, and the two heap pages are mapped there with every other page as before |
| Kmain.KmainOrderly | src/kernel.c:54-61 | so they are a run that boot and init_paging can be followed by |
| Pager.Kernel.MapModule | src/kernel.c:54-61 | maps the list, reads the start of the module through that mapping and maps the module; an unaligned address is a failed assertion, and nothing else halts |
| Pager.BringUp | src/kernel.c:42-50 | boot and init never halt for a layout whose kernel fits one table, and leave the heap with exactly four pages used |
| Pager.BootAndRun | src/kernel.c:42-61 | from power on through any run that is orderly from the state init_paging leaves, such as that of kmain, the hardware walk of every page is the boot mapping changed by the calls that named the page |
| Pager.BootAndLoad | src/kernel.c:42-61 | from power on to the mapped module: the hardware walk of every page is the boot mapping, but for the two heap pages that kmain maps |
| CString.MemSet | src/libc/string.c:6-13 | fills exactly the range |
| CString.MemCpy | src/libc/string.c:15-25 | is the byte-by-byte forward copy for any overlap, and a move when that is safe |
| CString.ForwardByte | src/libc/string.c:20-22 | every byte of a forward copy; with the destination inside the source the first bytes repeat |
| CString.ForwardIsMoveIff | src/libc/string.c:15-46 | memcpy equals memmove on every memory if and only if the ranges are disjoint or the destination starts at or before the source |
| CString.MemMove | src/libc/string.c:27-46 | for any overlap the destination gets the old source bytes and nothing else changes |
| CString.StrLen | src/libc/string.c:55-61 | the length up to the terminator |
| CString.StrCmp | src/libc/string.c:63-80 | zero if and only if the strings are equal |
| CString.StrCpy | src/libc/string.c:48-53 | copies the first byte and then up to the next terminator, without the terminator |
| CString.CopyReadsBackIff | src/libc/string.c:48-53 | the destination reads as the source string if and only if that is empty or a terminator was already behind the copy |
| CString.CopyKeepsTail | src/libc/string.c:48-53 | copying "A" over "BBB" leaves "ABB" |
| Console.ItemEntry | src/drivers/vga.c:30-44 | background, foreground and character land in their own bits |
| Console.LinesCutTheText | src/kernel/screen.c:16-25 | the lines are the text cut at its newlines, with nothing lost but NULs |
| Console.LinesByCharacter | src/kernel/screen.c:16-25 | character 10 starts a line, character 0 shows nothing, any other joins the last line |
| Console.ShowsScroll | src/drivers/vga.c:46-55 | scrolling a full screen shows the last 25 lines with a new empty one |
| Console.ShowsWrite | src/drivers/vga.c:70-75 | writing a character shows the text with that character |
| Console.Vga.Scroll | src/drivers/vga.c:46-55 | every cell below 2120 takes the cell one row down, in place |
| Console.Vga.NewLine | src/drivers/vga.c:93-106 | next row, or a scroll in the last one; position and cursor follow |
| Console.Vga.Init | src/drivers/vga.c:77-91 | a blank screen at position zero |
| Console.Screen.Put | src/kernel/screen.c:16-39 | keeps the screen showing the last 25 lines of the text, with the cursor at the write position |
| Console.Screen.PutText | src/kernel/screen.c:27-34 | after any text whose lines fit 80 columns, rows 0 to 24 are exactly its last 25 lines padded with blanks, all cells from 2000 on are blank, and the cursor is at y*80+x |
| Console.ScreenCells | src/drivers/vga.c:30-44 | on a valid screen every cell, bit by bit: a character of the last 25 lines in its place, white on the background; every other cell holds the bare colour number |
| Console.ScreenPosition | src/drivers/vga.c:57-75 | the write position and the cursor are y*80+x, behind the last line, in row 24 at most |
| Printf.PaddedLength | src/libc/stdio.c:309-378 | prints emits max(width, length) characters, and two more for the prefix, on every padding path |
| Printf.PaddedPlaces | src/libc/stdio.c:309-378 | where the padding is: zeros between prefix and string; otherwise spaces behind when left justified and in front when not |
| Printf.NumberLength | src/libc/stdio.c:380-448 | printi emits max(width, digits and sign), and two more exactly when a prefix is shown |
| Printf.DigitsFit | src/libc/stdio.c:385-424 | a word of k bits has at most k digits in any base of at least two |
| Printf.DigitsExact | src/libc/stdio.c:410-424 | a number that is not zero has exactly the digits its size asks for, so no leading zero |
| Printf.NoDigitLostIff | src/libc/stdio.c:410-421 | no digit of any word becomes NUL if and only if the base is at most 266 minus the code of the first letter |
| Printf.LostDigit | src/libc/stdio.c:410-447 | in a larger base the number 169 (or 201 with capitals) prints no digit |
| Printf.NumberShape | src/libc/stdio.c:309-448 | the output is spaces, sign, prefix, zeros, digits, spaces, and in each of the three cases all the padding is in its one place |
| Printf.NumberMarks | src/libc/stdio.c:390-445 | a minus sign, a plus sign and an x appear exactly when they should |
| Printf.NumberCase | src/libc/stdio.c:414-419 | letters are of the case asked for, but for the x of the prefix |
| Printf.NumberReadsBack | src/libc/stdio.c:309-448 | in base 10 and 16, for every value, width and flags, an independent reader gets the value back, without its minus sign under HIDE_SIGN |
| Printf.SignedRoundTripIff | src/libc/stdio.c:426-445 | a signed decimal reads back if and only if it is not negative with HIDE_SIGN |
| Printf.HiddenMinus | src/libc/stdio.c:426 | -5 with the space flag reads back as 5 |
| PrintfFormat.Resolve | src/libc/stdio.c:215-232 | a conflict between HIDE and SHOW clears both, then one between HEX and SHOW clears both; flags without conflict stay |
| PrintfFormat.ParseCanonical | src/libc/stdio.c:149-232 | every canonical directive, followed by anything, parses to its flags up to conflict resolution, width, length and conversion |
| PrintfFormat.OutputConcat | src/libc/stdio.c:128-307 | printing f and g in one format prints f and then g, and the counts add up |
| PrintfFacts.PlainText | src/libc/stdio.c:132-138 | a text without percent signs prints itself |
| PrintfFacts.PercentSigns | src/libc/stdio.c:140-147 | %% prints a percent sign, a lone one at the end nothing |
| PrintfFacts.TextThen | src/libc/stdio.c:132-138 | text in front of a format is printed in front |
| PrintfFacts.DirectiveThen | src/libc/stdio.c:128-307 | a directive in front of a format is printed in front, with the first argument |
| PrintfFacts.SignedDirective | src/libc/stdio.c:257-265 | %d and %i, with any flags, width and length, print the signed reading of the argument in decimal, with its sign, in its field |
| PrintfFacts.UnsignedDirective | src/libc/stdio.c:266-273 | %u prints the unsigned reading in decimal, in its field |
| PrintfFacts.HexDirective | src/libc/stdio.c:274-299 | %x and %X print the unsigned reading in base 16, in small letters and in capitals, in its field |
| PrintfFacts.PointerDirective | src/libc/stdio.c:282-299 | %p prints 0x and eight capital hex digits, four for a short argument, whatever flags and width are written |
| PrintfFacts.StringDirective | src/libc/stdio.c:246-250 | %s prints the string, or (null), in its field |
| PrintfFacts.CharDirective | src/libc/stdio.c:251-256 | %c prints the low byte of the argument in its field |
| PrintfFacts.UnknownDirective | src/libc/stdio.c:300-302 | any other conversion prints its own character and takes no argument |
| PrintfEngine.PrintString | src/libc/stdio.c:309-378 | emits exactly the padded string and returns its length |
| PrintfEngine.WriteDigits | src/libc/stdio.c:408-424 | the reverse digit loop stays inside the 65-byte buffer for every base of at least two and words of up to 64 bits, and leaves the digits at its end |
| PrintfEngine.PrintNumber | src/libc/stdio.c:380-448 | emits exactly the number in its field and returns its length; nothing for a base below two |
| PrintfEngine.ParseWidth | src/libc/stdio.c:179-189 | the width loop computes the decimal value of the digits |
| PrintfEngine.ParseDirective | src/libc/stdio.c:149-232 | the stage loops compute the directive and terminate |
| PrintfEngine.Print | src/libc/stdio.c:128-307 | terminates on every complete format, emits exactly the rendering of its items and returns the count |
| Initrd.LeRoundTrip | misc/initrd.c:40 | a stored word reads back |
| Initrd.LowByteFirst | misc/initrd.c:40 | words are stored and read with the low byte first |
| Initrd.WriteHeader | misc/initrd.c:24-35 | name, offset, length and magic go to their fields and no byte outside the header changes |
| Initrd.Pack | misc/initrd.c:13-52 | the output is an image of the files, whatever the header array held before |
| Initrd.ImageBytes | misc/initrd.c:6-52 | every byte position of an image: count, 76-byte headers from byte 4 with magic, name, offset and length, data from byte 4868 |
| RamdiskFacts.LoadableMeans | misc/initrd.c:13-24 | what the reader demands of the files, in numbers |
| RamdiskFacts.RelocateStep | src/drivers/ramdisk.c:106 | relocating one header touches no other file |
| RamdiskFacts.ReadCountInsideIff | src/drivers/ramdisk.c:21-26 | read stays inside the file if and only if the sum does not wrap into it; without wrap it is clamped at the end |
| RamdiskFacts.WrapReadsOn | src/drivers/ramdisk.c:24-26 | a read of nearly 4 GB from offset 5 of a file of 10 bytes is not cut short |
| RamdiskFacts.FileReadsCompose | src/drivers/ramdisk.c:18-32 | however a range is cut into chunks the reads give its bytes in order, all of the file for a full cut, and nothing at or past the end |
| Ramdisk.Disk.Init | src/drivers/ramdisk.c:63-123 | every header is relocated in place and every inode describes its file |
| Ramdisk.Disk.Read | src/drivers/ramdisk.c:18-32 | copies exactly the bytes of the range and returns their number |
| Ramdisk.Disk.ReadDir | src/drivers/ramdisk.c:34-50 | the shared entry holds exactly the listed name, with no suffix of an earlier one, and its inode number |
| Ramdisk.Disk.FindDir | src/drivers/ramdisk.c:52-61 | "dev" in the root, otherwise the first file of that name, also among equal names, otherwise nothing |
| Ramdisk.Disk.ReadFs | src/fs/vfs.c:5-12 | reads a file through the driver and nothing from a directory |
| Ramdisk.Disk.ReaddirFs | src/fs/vfs.c:14-21 | lists only directories |
| Ramdisk.Disk.FinddirFs | src/fs/vfs.c:23-29 | searches only directories |
| Ramdisk.LookupMeans | src/drivers/ramdisk.c:52-61 | "dev" in the root is the directory, any other name the first file that has it, and a name that no file has is not found |
| Ramdisk.ListedMeans | src/drivers/ramdisk.c:34-50 | "dev" at index 0 of the root only, file k at index k + 1, nothing beyond |
| Ramdisk.ListedIsFound | src/drivers/ramdisk.c:34-61 | with distinct names the root lists nfiles + 1 names, and each is found, at the node and with the inode number it was listed with |
| Ramdisk.AllFoundIff | src/drivers/ramdisk.c:52-61 | every file is found by its name if and only if the names are distinct and none is "dev" |
| Ramdisk.SecondIsHidden | src/drivers/ramdisk.c:57-59 | the second of two files of one name is never found |
| Ramdisk.ReadInChunks | src/fs/vfs.c:5-12 | read_fs called once per chunk, into one buffer, leaves the bytes of the whole range there in order |
| Ramdisk.Walk | src/kernel.c:64-81 | sees "dev" and then every file once in order with its first 256 bytes, and panics exactly at the first empty file |
| Ramdisk.ExpectedMeans | src/kernel.c:65-78 | what each step of the walk should see |
| Ramdisk.PackMountRead | misc/initrd.c:13-52 | packing, loading at any address, mounting, finding and reading returns each file's exact bytes |

## Left out

- Boot.Start: requires that the early kernel ends by 4 MB (`EarlyFits`), which linker.ld does not assert; beyond that the index of the `.lowmem` loop would wrap.
- Pager.Kernel.ClearTable: clears a table a word at a time, where `memset` stores bytes; memory here is made of words.
- Pager.Kernel.PageMap: does not model the TLB or the accessed and dirty bits the processor sets; results are about table walks.
- Pager.Kernel.InitPaging: the debug prints and the registration of the page-fault handler are not modelled; a page fault is a halt.
- Pager.Kernel.PerformAll: after a halt it says in which state the run was when the last operation began, not what a halted kernel left in memory.
- Pager.Kernel.MapModule: takes the address of the module list as a parameter instead of reading the multiboot structure; the size it computes is not used by the ramdisk.
- Machine.Cpu.Store: does not check the RW flag, which a supervisor store ignores with CR0.WP clear.
- Console.Screen.PutText: lines longer than 80 characters are excluded; the code lets them run into the next row.
- Printf.Number: does not model the signed overflow of `rem - 10 + convbase` for digits just below 2^31; the sum is taken modulo 256 as for every other digit.
- PrintfEngine.Print: the sink is a growing text; that `outchar` writes either to a buffer or to the screen, that the count could pass 2^31, and the two-byte step of the argument pointer for `h` are not modelled.
- Ramdisk.Disk.Init: requires names that are not empty, because `strcpy` runs on past an empty one into whatever the header array held; inodes are values and their allocation cannot fail; the one page of the module that `kmain` maps is taken to be a whole, contiguous mapping.
- Initrd.Pack: host file I/O and the missing-file exit are not modelled.
- The debug checks for address 0x001010D8 and the debug print in `read`.
- GDT, IDT, PIC, timer, interrupt stubs, port I/O and the multiboot structures: fixed tables and device sequences.
- NUL termination by `sprintf`, which the code does not provide.
